/** UTF-8 (RFC 3629): the encoding of text, the strict decoder, and what happens to text that is cut. */
module Utf8 {
  import opened Digests

  /** The UTF-8 bytes of a character. */
  function EncodeChar(c: char): (b: seq<Byte>)
    ensures 1 <= |b| <= 4
  {
    var n := c as int;
    if n < 0x80 then [n]
    else if n < 0x800 then [0xC0 + n / 0x40, 0x80 + n % 0x40]
    else if n < 0x1_0000 then [0xE0 + n / 0x1000, 0x80 + n / 0x40 % 0x40, 0x80 + n % 0x40]
    else [0xF0 + n / 0x4_0000, 0x80 + n / 0x1000 % 0x40, 0x80 + n / 0x40 % 0x40, 0x80 + n % 0x40]
  }

  function Encode(s: string): (b: seq<Byte>)
    ensures |b| >= |s|
  {
    if s == [] then [] else EncodeChar(s[0]) + Encode(s[1..])
  }

  /** A byte that continues a character. */
  predicate IsContinuation(b: Byte) {
    0x80 <= b < 0xC0
  }

  /** Encoded text may be cut at `i` without cutting a character. */
  predicate IsBoundary(b: seq<Byte>, i: nat) {
    i >= |b| || !IsContinuation(b[i])
  }

  /** How many bytes a character has that starts with this one; none start with a continuation byte. */
  function Width(first: Byte): nat {
    if first < 0x80 then 1
    else if first < 0xC0 then 0
    else if first < 0xE0 then 2
    else if first < 0xF0 then 3
    else if first < 0xF8 then 4
    else 0
  }

  predicate IsScalar(n: int) {
    0 <= n < 0xD800 || 0xE000 <= n < 0x11_0000
  }

  function SixBits(b: Byte): int {
    b as int - 0x80
  }

  /** The number that the bits of the first character make up. */
  function CodePoint(b: seq<Byte>): int
    requires b != [] && Width(b[0]) <= |b|
  {
    var first: int := b[0];
    match Width(b[0])
    case 1 => first
    case 2 => (first - 0xC0) * 0x40 + SixBits(b[1])
    case 3 => (first - 0xE0) * 0x1000 + SixBits(b[1]) * 0x40 + SixBits(b[2])
    case 4 => (first - 0xF0) * 0x4_0000 + SixBits(b[1]) * 0x1000 + SixBits(b[2]) * 0x40 + SixBits(b[3])
    case _ => -1
  }

  /** The first character, if the bytes start with the one encoding of a scalar value: no overlong form, no
      surrogate, nothing beyond U+10FFFF, no missing byte. */
  function DecodeFirst(b: seq<Byte>): (r: Option<char>)
    requires b != []
    ensures r.Some? ==> EncodeChar(r.value) <= b
  {
    if |b| < Width(b[0]) then None
    else
      var n := CodePoint(b);
      if IsScalar(n) && EncodeChar(n as char) <= b then Some(n as char) else None
  }

  function Decode(b: seq<Byte>): (r: Option<string>)
    ensures r.Some? ==> Encode(r.value) == b
  {
    if b == [] then Some([])
    else
      match DecodeFirst(b)
      case None => None
      case Some(c) =>
        match Decode(b[|EncodeChar(c)|..])
        case None => None
        case Some(s) => Some([c] + s)
  }

  // ------------------------------------------------------------------ round trip

  lemma CharShape(c: char)
    ensures var b := EncodeChar(c);
            Width(b[0]) == |b| && !IsContinuation(b[0]) && forall i | 1 <= i < |b| :: IsContinuation(b[i])
  {
  }

  lemma CharCodePoint(c: char)
    ensures Width(EncodeChar(c)[0]) == |EncodeChar(c)| && CodePoint(EncodeChar(c)) == c as int
  {
    CharShape(c);
    SixBitDigits(c as int);
    hide Width;
  }

  lemma SixBitDigits(n: nat)
    ensures n == n / 0x40 * 0x40 + n % 0x40
    ensures n / 0x40 == n / 0x1000 * 0x40 + n / 0x40 % 0x40
    ensures n / 0x1000 == n / 0x4_0000 * 0x40 + n / 0x1000 % 0x40
  {
  }

  lemma CharIsScalar(c: char)
    ensures IsScalar(c as int)
  {
  }

  lemma CodePointStays(b: seq<Byte>, rest: seq<Byte>)
    requires b != [] && Width(b[0]) == |b|
    ensures CodePoint(b + rest) == CodePoint(b)
  {
  }

  lemma FirstDecodes(c: char, rest: seq<Byte>)
    ensures DecodeFirst(EncodeChar(c) + rest) == Some(c)
  {
    hide EncodeChar, CodePoint, Width, IsScalar;
    CharCodePoint(c);
    CharIsScalar(c);
    CodePointStays(EncodeChar(c), rest);
  }

  /** Decoding undoes encoding. */
  lemma {:induction false} RoundTrip(s: string)
    ensures Decode(Encode(s)) == Some(s)
  {
    hide EncodeChar, DecodeFirst;
    if s != [] {
      RoundTrip(s[1..]);
      FirstDecodes(s[0], Encode(s[1..]));
      assert (EncodeChar(s[0]) + Encode(s[1..]))[|EncodeChar(s[0])|..] == Encode(s[1..]);
      assert [s[0]] + s[1..] == s;
    }
  }

  lemma EncodeCons(c: char, s: string)
    ensures Encode([c] + s) == EncodeChar(c) + Encode(s)
  {
    assert ([c] + s)[1..] == s;
  }

  lemma SplitFirst(a: string, b: string)
    requires a != []
    ensures a == [a[0]] + a[1..] && a + b == [a[0]] + (a[1..] + b)
  {
  }

  lemma Regroup(a: seq<Byte>, b: seq<Byte>, c: seq<Byte>)
    ensures a + (b + c) == (a + b) + c
  {
  }

  lemma EncodeNothing(b: string)
    ensures Encode("" + b) == Encode("") + Encode(b)
  {
    assert "" + b == b;
  }

  lemma {:induction false} EncodeConcat(a: string, b: string)
    ensures Encode(a + b) == Encode(a) + Encode(b)
  {
    hide EncodeChar, Encode;
    if a == [] {
      EncodeNothing(b);
    } else {
      EncodeConcat(a[1..], b);
      SplitFirst(a, b);
      EncodeCons(a[0], a[1..] + b);
      EncodeCons(a[0], a[1..]);
      Regroup(EncodeChar(a[0]), Encode(a[1..]), Encode(b));
    }
  }

  lemma EncodeInjective(a: string, b: string)
    requires Encode(a) == Encode(b)
    ensures a == b
  {
    RoundTrip(a);
    RoundTrip(b);
  }

  // ------------------------------------------------------------------ cuts

  /** Encoded text that is cut is decoded if and only if no character is cut, and then to the characters
      before the cut. */
  lemma {:induction false} CutExactly(s: string, n: nat) returns (i: nat)
    requires n <= |Encode(s)|
    ensures Decode(Encode(s)[..n]).Some? <==> IsBoundary(Encode(s), n)
    ensures IsBoundary(Encode(s), n) ==>
              i <= |s| && Encode(s[..i]) == Encode(s)[..n] && Decode(Encode(s)[..n]) == Some(s[..i])
  {
    hide EncodeChar, DecodeFirst, IsContinuation;
    i := 0;
    if n == 0 {
      assert s[..0] == [];
      if s != [] {
        CharShape(s[0]);
      }
    } else if n < |EncodeChar(s[0])| {
      CutFirst(s[0], Encode(s[1..]), n);
    } else {
      var m := n - |EncodeChar(s[0])|;
      var j := CutExactly(s[1..], m);
      i := CutBehindFirst(s, n, j);
    }
  }

  /** A cut behind the first character is a cut of the rest. */
  lemma CutBehindFirst(s: string, n: nat, j: nat) returns (i: nat)
    requires s != [] && |EncodeChar(s[0])| <= n <= |Encode(s)|
    requires var (rest, m) := (Encode(s[1..]), n - |EncodeChar(s[0])|);
             && (Decode(rest[..m]).Some? <==> IsBoundary(rest, m))
             && (IsBoundary(rest, m) ==>
                 j <= |s| - 1 && Encode(s[1..][..j]) == rest[..m] && Decode(rest[..m]) == Some(s[1..][..j]))
    ensures Decode(Encode(s)[..n]).Some? <==> IsBoundary(Encode(s), n)
    ensures IsBoundary(Encode(s), n) ==>
              i <= |s| && Encode(s[..i]) == Encode(s)[..n] && Decode(Encode(s)[..n]) == Some(s[..i])
  {
    hide EncodeChar, DecodeFirst, IsContinuation, Decode;
    var (first, rest) := (EncodeChar(s[0]), Encode(s[1..]));
    var m := n - |first|;
    i := j + 1;
    assert Encode(s) == first + rest;
    hide Encode;
    DecodeCons(s[0], rest[..m]);
    assert Encode(s)[..n] == first + rest[..m];
    assert n < |Encode(s)| ==> Encode(s)[n] == rest[m];
    if IsBoundary(rest, m) {
      assert s[..i] == [s[0]] + s[1..][..j];
      EncodeCons(s[0], s[1..][..j]);
    }
  }

  lemma DecodeCons(c: char, rest: seq<Byte>)
    ensures Decode(EncodeChar(c) + rest)
         == match Decode(rest) case None => None case Some(s) => Some([c] + s)
  {
    hide EncodeChar, DecodeFirst;
    FirstDecodes(c, rest);
    assert (EncodeChar(c) + rest)[|EncodeChar(c)|..] == rest;
  }

  lemma CutFirst(c: char, rest: seq<Byte>, n: nat)
    requires 0 < n < |EncodeChar(c)|
    ensures !IsBoundary(EncodeChar(c) + rest, n) && Decode((EncodeChar(c) + rest)[..n]).None?
  {
    hide EncodeChar;
    CharShape(c);
  }

  // ------------------------------------------------------------------ ASCII

  predicate IsAscii(s: string) {
    forall i | 0 <= i < |s| :: s[i] as int < 0x80
  }

  /** ASCII text is its own encoding. */
  lemma {:induction false} AsciiEncoding(s: string)
    requires IsAscii(s)
    ensures |Encode(s)| == |s| && forall i | 0 <= i < |s| :: Encode(s)[i] == s[i] as int
  {
    if s != [] {
      AsciiEncoding(s[1..]);
      assert EncodeChar(s[0]) == [s[0] as int];
    }
  }

  /** No other text has only bytes below 128. */
  lemma {:induction false} AsciiBytes(s: string)
    requires forall i | 0 <= i < |Encode(s)| :: Encode(s)[i] < 0x80
    ensures IsAscii(s)
  {
    if s != [] {
      var (first, rest) := (EncodeChar(s[0]), Encode(s[1..]));
      assert Encode(s)[0] == first[0];
      forall i | 0 <= i < |rest| ensures rest[i] < 0x80 {
        assert Encode(s)[|first| + i] == rest[i];
      }
      AsciiBytes(s[1..]);
      assert forall i | 0 < i < |s| :: s[i] == s[1..][i - 1];
    }
  }
}
