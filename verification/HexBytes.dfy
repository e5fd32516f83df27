/** Bytes as hexadecimal text: the encoder, the decoder, and exactly which texts the decoder accepts, rejects,
    and panics on. */
module HexBytes {
  import opened Digests
  import opened Text
  import opened Utf8

  /** Two lower-case digits for every byte. */
  function Hex(bytes: seq<Byte>): (s: string)
    ensures |s| == 2 * |bytes|
  {
    if bytes == [] then [] else [HexDigit(bytes[0] / 16), HexDigit(bytes[0] % 16)] + Hex(bytes[1..])
  }

  /** `hex_encode`: one pass over the bytes. */
  method HexEncode(bytes: seq<Byte>) returns (s: string)
    ensures s == Hex(bytes)
    ensures HexDecode(s) == Decoded(bytes)
  {
    s := [];
    for i := 0 to |bytes|
      invariant s + Hex(bytes[i..]) == Hex(bytes)
    {
      var b: int := bytes[i];
      var pair := [HexDigit(b / 16), HexDigit(b % 16)];
      assert bytes[i..][1..] == bytes[i + 1..];
      assert s + (pair + Hex(bytes[i + 1..])) == (s + pair) + Hex(bytes[i + 1..]);
      s := s + pair;
    }
    assert s + [] == s;
    HexRoundTrip(bytes);
  }

  /** `Panicked` is the panic of a slice that cuts a character. */
  datatype HexOutcome = Decoded(bytes: seq<Byte>) | Rejected | Panicked

  /** Two bytes of text as a byte value: two digits, or a plus sign and one digit. */
  function HexPair(a: Byte, b: Byte): Option<Byte> {
    if a >= 0x80 || b >= 0x80 then None
    else
      match (HexValue(a as char), HexValue(b as char))
      case (Some(high), Some(low)) => Some(high * 16 + low)
      case (None, Some(low)) => if a as char == '+' then Some(low) else None
      case _ => None
  }

  /** The pairs in order; slicing off a pair panics if it cuts a character, before the pair is parsed. */
  function HexPairs(b: seq<Byte>): HexOutcome
    requires |b| % 2 == 0
  {
    if b == [] then Decoded([])
    else if !IsBoundary(b, 2) then Panicked
    else
      match HexPair(b[0], b[1])
      case None => Rejected
      case Some(v) =>
        match HexPairs(b[2..])
        case Decoded(rest) => Decoded([v] + rest)
        case Rejected => Rejected
        case Panicked => Panicked
  }

  /** `hex_decode`, on the bytes of the text. */
  function HexDecode(s: string): HexOutcome {
    if |Encode(s)| % 2 != 0 then Rejected else HexPairs(Encode(s))
  }

  // ------------------------------------------------------------------ when decoding panics

  /** All pairs before `n` are accepted, and pair `n` cuts a character. */
  ghost predicate PanicsAt(b: seq<Byte>, n: nat) {
    && 2 * n + 2 < |b| && !IsBoundary(b, 2 * n + 2)
    && forall i | 0 <= i < n :: HexPair(b[2 * i], b[2 * i + 1]).Some?
  }

  lemma {:induction false} PairsPanic(b: seq<Byte>)
    requires |b| % 2 == 0
    ensures HexPairs(b) == Panicked <==> exists n: nat :: PanicsAt(b, n)
    decreases |b|
  {
    hide HexPair, IsBoundary;
    if b == [] {
      assert forall n: nat :: !PanicsAt(b, n);
    } else if !IsBoundary(b, 2) {
      PanicsNow(b);
    } else {
      PairsPanic(b[2..]);
      NoPanicAtOnce(b);
      if HexPair(b[0], b[1]).Some? {
        PanicsShift(b);
      }
    }
  }

  lemma PanicsNow(b: seq<Byte>)
    requires |b| >= 2 && !IsBoundary(b, 2)
    ensures PanicsAt(b, 0)
  {
  }

  lemma NoPanicAtOnce(b: seq<Byte>)
    requires |b| >= 2 && IsBoundary(b, 2)
    ensures forall n: nat | PanicsAt(b, n) :: n > 0 && HexPair(b[0], b[1]).Some?
  {
    hide HexPair, IsBoundary;
    forall n: nat | PanicsAt(b, n) ensures n > 0 && HexPair(b[0], b[1]).Some? {
      assert n > 0;
      assert HexPair(b[2 * 0], b[2 * 0 + 1]).Some?;
    }
  }

  lemma PanicsShift(b: seq<Byte>)
    requires |b| >= 2 && IsBoundary(b, 2) && HexPair(b[0], b[1]).Some?
    ensures (exists n: nat :: PanicsAt(b, n)) <==> exists n: nat :: PanicsAt(b[2..], n)
  {
    hide HexPair, IsBoundary;
    NoPanicAtOnce(b);
    if n: nat :| PanicsAt(b, n) {
      hide PanicsAt;
      PanicShifts(b, n);
      assert PanicsAt(b[2..], n - 1);
    }
    if n: nat :| PanicsAt(b[2..], n) {
      hide PanicsAt;
      PanicShifts(b, n + 1);
      assert PanicsAt(b, n + 1);
    }
  }

  lemma PanicShifts(b: seq<Byte>, n: nat)
    requires n > 0 && |b| >= 2 && HexPair(b[0], b[1]).Some?
    ensures PanicsAt(b, n) <==> PanicsAt(b[2..], n - 1)
  {
    hide HexPair;
    var rest := b[2..];
    assert 2 * n + 2 < |b| ==> b[2 * n + 2] == rest[2 * (n - 1) + 2];
    assert forall i | 0 <= i && 2 * i + 1 < |rest| ::
        rest[2 * i] == b[2 * (i + 1)] && rest[2 * i + 1] == b[2 * (i + 1) + 1];
    if PanicsAt(b, n) {
      forall i | 0 <= i < n - 1 ensures HexPair(rest[2 * i], rest[2 * i + 1]).Some? {
        assert HexPair(b[2 * (i + 1)], b[2 * (i + 1) + 1]).Some?;
      }
    }
    if PanicsAt(rest, n - 1) {
      forall i | 0 <= i < n ensures HexPair(b[2 * i], b[2 * i + 1]).Some? {
        if i > 0 {
          assert HexPair(rest[2 * (i - 1)], rest[2 * (i - 1) + 1]).Some?;
        }
      }
    }
  }

  /** Decoding panics if and only if the text has an even number of bytes and, behind pairs that are all
      accepted, a pair ends inside a character. */
  lemma PanicExactly(s: string)
    ensures HexDecode(s) == Panicked <==> |Encode(s)| % 2 == 0 && exists n: nat :: PanicsAt(Encode(s), n)
  {
    if |Encode(s)| % 2 == 0 {
      PairsPanic(Encode(s));
    }
  }

  lemma AsciiNeverPanics(s: string)
    requires IsAscii(s)
    ensures HexDecode(s) != Panicked
  {
    AsciiEncoding(s);
    PanicExactly(s);
    assert forall n: nat :: !PanicsAt(Encode(s), n);
  }

  // ------------------------------------------------------------------ what is accepted

  lemma {:induction false} PairsDecoded(b: seq<Byte>)
    requires |b| % 2 == 0
    ensures HexPairs(b).Decoded? <==> forall i | 0 <= i < |b| / 2 :: HexPair(b[2 * i], b[2 * i + 1]).Some?
    ensures HexPairs(b).Decoded? ==>
              && |HexPairs(b).bytes| == |b| / 2
              && forall i | 0 <= i < |b| / 2 :: HexPair(b[2 * i], b[2 * i + 1]) == Some(HexPairs(b).bytes[i])
    decreases |b|
  {
    if b != [] {
      var rest := b[2..];
      PairsDecoded(rest);
      forall i | 0 <= i < |rest| / 2 ensures rest[2 * i] == b[2 * (i + 1)] && rest[2 * i + 1] == b[2 * (i + 1) + 1] {
      }
      if forall i | 0 <= i < |b| / 2 :: HexPair(b[2 * i], b[2 * i + 1]).Some? {
        assert HexPair(b[2 * 0], b[2 * 0 + 1]).Some?;
        assert |b| > 2 ==> HexPair(b[2 * 1], b[2 * 1 + 1]).Some?;
        forall i | 0 <= i < |rest| / 2 ensures HexPair(rest[2 * i], rest[2 * i + 1]).Some? {
          assert HexPair(b[2 * (i + 1)], b[2 * (i + 1) + 1]).Some?;
        }
      }
      if HexPairs(b).Decoded? {
        var v := HexPairs(b).bytes;
        assert v[1..] == HexPairs(rest).bytes;
        forall i | 0 <= i < |b| / 2 ensures HexPair(b[2 * i], b[2 * i + 1]) == Some(v[i]) {
          if i > 0 {
            assert HexPair(rest[2 * (i - 1)], rest[2 * (i - 1) + 1]) == Some(v[1..][i - 1]);
          }
        }
      }
    }
  }

  /** Two characters that are accepted as a byte: two digits, or a plus sign and a digit. */
  predicate Accepted(a: char, b: char) {
    (HexValue(a).Some? || a == '+') && HexValue(b).Some?
  }

  function PairValue(a: char, b: char): Byte
    requires Accepted(a, b)
  {
    (if a == '+' then 0 else HexValue(a).value) * 16 + HexValue(b).value
  }

  lemma PairOfChars(a: char, b: char)
    requires a as int < 0x80 && b as int < 0x80
    ensures HexPair(a as int, b as int) == if Accepted(a, b) then Some(PairValue(a, b)) else None
  {
  }

  predicate PairsAccepted(s: string) {
    |s| % 2 == 0 && forall i | 0 <= i < |s| / 2 :: Accepted(s[2 * i], s[2 * i + 1])
  }

  lemma AcceptedIsAscii(s: string)
    requires PairsAccepted(s)
    ensures IsAscii(s)
  {
    forall i | 0 <= i < |s| ensures s[i] as int < 0x80 {
      assert Accepted(s[2 * (i / 2)], s[2 * (i / 2) + 1]);
    }
  }

  /** Decoding succeeds if and only if the text is made of accepted pairs of characters, and then each pair is
      its byte. */
  lemma DecodedExactly(s: string)
    ensures HexDecode(s).Decoded? <==> PairsAccepted(s)
    ensures HexDecode(s).Decoded? ==>
              && |HexDecode(s).bytes| == |s| / 2
              && forall i | 0 <= i < |s| / 2 :: HexDecode(s).bytes[i] == PairValue(s[2 * i], s[2 * i + 1])
  {
    hide HexPair, HexPairs, Accepted, PairValue, Encode;
    if HexDecode(s).Decoded? {
      PairsDecoded(Encode(s));
      DecodedIsAscii(s);
    }
    if PairsAccepted(s) {
      AcceptedIsAscii(s);
    }
    if IsAscii(s) && |s| % 2 == 0 {
      AsciiEncoding(s);
      PairsDecoded(Encode(s));
      forall i | 0 <= i < |s| / 2
        ensures HexPair(Encode(s)[2 * i], Encode(s)[2 * i + 1])
             == if Accepted(s[2 * i], s[2 * i + 1]) then Some(PairValue(s[2 * i], s[2 * i + 1])) else None
      {
        PairOfChars(s[2 * i], s[2 * i + 1]);
      }
    }
  }

  lemma DecodedIsAscii(s: string)
    requires |Encode(s)| % 2 == 0
    requires forall i | 0 <= i < |Encode(s)| / 2 :: HexPair(Encode(s)[2 * i], Encode(s)[2 * i + 1]).Some?
    ensures IsAscii(s) && |Encode(s)| == |s|
  {
    hide Encode;
    forall i | 0 <= i < |Encode(s)| ensures Encode(s)[i] < 0x80 {
      assert HexPair(Encode(s)[2 * (i / 2)], Encode(s)[2 * (i / 2) + 1]).Some?;
    }
    AsciiBytes(s);
    AsciiEncoding(s);
  }

  // ------------------------------------------------------------------ round trips

  lemma {:induction false} HexAt(bytes: seq<Byte>, i: nat)
    requires i < |bytes|
    ensures Hex(bytes)[2 * i] == HexDigit(bytes[i] / 16) && Hex(bytes)[2 * i + 1] == HexDigit(bytes[i] % 16)
  {
    if i > 0 {
      HexAt(bytes[1..], i - 1);
    }
  }

  lemma DigitsAccepted(b: Byte)
    ensures Accepted(HexDigit(b / 16), HexDigit(b % 16)) && PairValue(HexDigit(b / 16), HexDigit(b % 16)) == b
  {
    HexDigitValue(b / 16);
    HexDigitValue(b % 16);
  }

  /** Decoding undoes encoding. */
  lemma HexRoundTrip(bytes: seq<Byte>)
    ensures HexDecode(Hex(bytes)) == Decoded(bytes)
  {
    hide Hex, HexDigit, Accepted, PairValue, HexDecode;
    forall i | 0 <= i < |bytes|
      ensures Accepted(Hex(bytes)[2 * i], Hex(bytes)[2 * i + 1])
      ensures PairValue(Hex(bytes)[2 * i], Hex(bytes)[2 * i + 1]) == bytes[i]
    {
      HexAt(bytes, i);
      DigitsAccepted(bytes[i]);
    }
    DecodedExactly(Hex(bytes));
  }

  predicate IsLowerHex(c: char) {
    '0' <= c <= '9' || 'a' <= c <= 'f'
  }

  lemma PairBack(a: char, b: char)
    requires Accepted(a, b)
    ensures var v := PairValue(a, b);
            a == HexDigit(v / 16) && b == HexDigit(v % 16) <==> IsLowerHex(a) && IsLowerHex(b)
  {
  }

  /** Encoding undoes decoding if and only if the text is lower-case digits only: capital digits and plus signs
      are accepted but not given back. */
  lemma EncodeUndoesExactly(s: string)
    requires HexDecode(s).Decoded?
    ensures Hex(HexDecode(s).bytes) == s <==> forall i | 0 <= i < |s| :: IsLowerHex(s[i])
  {
    hide Hex, HexDigit, Accepted, PairValue, HexDecode, IsLowerHex;
    DecodedExactly(s);
    var bytes := HexDecode(s).bytes;
    forall i | 0 <= i < |bytes|
      ensures Hex(bytes)[2 * i] == s[2 * i] && Hex(bytes)[2 * i + 1] == s[2 * i + 1]
              <==> IsLowerHex(s[2 * i]) && IsLowerHex(s[2 * i + 1])
    {
      HexAt(bytes, i);
      PairBack(s[2 * i], s[2 * i + 1]);
    }
    if forall i | 0 <= i < |s| :: IsLowerHex(s[i]) {
      forall i | 0 <= i < |s| ensures Hex(bytes)[i] == s[i] {
        assert Hex(bytes)[2 * (i / 2)] == s[2 * (i / 2)] && Hex(bytes)[2 * (i / 2) + 1] == s[2 * (i / 2) + 1];
      }
    }
    if Hex(bytes) == s {
      forall i | 0 <= i < |s| ensures IsLowerHex(s[i]) {
        assert Hex(bytes)[2 * (i / 2)] == s[2 * (i / 2)] && Hex(bytes)[2 * (i / 2) + 1] == s[2 * (i / 2) + 1];
      }
    }
  }

  lemma PlusAccepted()
    ensures HexDecode("+f") == Decoded([15])
  {
    DecodedExactly("+f");
    assert HexDecode("+f").bytes == [15];
  }

  lemma CutCharacterPanics()
    ensures HexDecode("a\U{e9}b") == Panicked
  {
    assert Encode("a\U{e9}b") == [0x61, 0xC3, 0xA9, 0x62] by {
      assert "a\U{e9}b"[1..] == "\U{e9}b" && "\U{e9}b"[1..] == "b" && "b"[1..] == "";
    }
  }

  lemma CapitalAccepted()
    ensures HexDecode("0F") == Decoded([15])
  {
    DecodedExactly("0F");
    assert HexDecode("0F").bytes == [15];
  }

  lemma WholeCharacterRejected()
    ensures HexDecode("\U{e9}") == Rejected
  {
    assert Encode("\U{e9}") == [0xC3, 0xA9] by { assert "\U{e9}"[1..] == ""; }
  }

  /** Witnesses: texts that are accepted without being encodings, one on which decoding panics, and one that is
      rejected since no character is cut. */
  lemma HexIsLenient()
    ensures HexDecode("0F") == HexDecode("+f") == Decoded([15]) && Hex([15]) == "0f"
    ensures HexDecode("a\U{e9}b") == Panicked && HexDecode("\U{e9}") == Rejected
  {
    hide HexDecode;
    PlusAccepted();
    CapitalAccepted();
    CutCharacterPanics();
    WholeCharacterRejected();
    assert Hex([15][1..]) == "";
  }
}
