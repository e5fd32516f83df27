/** The base64 encoder of the head view, against a decoder for section 4 of RFC 4648. */
module Base64 {
  import opened Digests

  const UPPER: string := "ABCDEFGHIJKLMNOPQRSTUVWXYZ"
  const LOWER: string := "abcdefghijklmnopqrstuvwxyz"
  const DIGITS: string := "0123456789"
  const ALPHABET: string := UPPER + LOWER + DIGITS + "+/"

  function Letter(v: int): char
    requires 0 <= v < 64
  {
    if v < 26 then 'A' + v as char
    else if v < 52 then 'a' + (v - 26) as char
    else if v < 62 then '0' + (v - 52) as char
    else if v == 62 then '+' else '/'
  }

  function Value(c: char): Option<int> {
    if 'A' <= c <= 'Z' then Some(c as int - 'A' as int)
    else if 'a' <= c <= 'z' then Some(c as int - 'a' as int + 26)
    else if '0' <= c <= '9' then Some(c as int - '0' as int + 52)
    else if c == '+' then Some(62)
    else if c == '/' then Some(63)
    else None
  }

  lemma LetterValue(v: int)
    requires 0 <= v < 64
    ensures Value(Letter(v)) == Some(v) && Letter(v) != '='
  {
  }

  lemma AlphabetLetters(v: int)
    requires 0 <= v < 64
    ensures |ALPHABET| == 64 && ALPHABET[v] == Letter(v)
  {
  }

  /** Decoding of one quantum of four characters. */
  function DecodeQuantum(a: char, b: char, c: char, d: char, last: bool): Option<seq<Byte>> {
    var (va, vb, vc, vd) := (Value(a), Value(b), Value(c), Value(d));
    if va.None? || vb.None? then None
    else if c == '=' then
      if last && d == '=' && vb.value % 16 == 0 then Some([va.value * 4 + vb.value / 16]) else None
    else if vc.None? then None
    else if d == '=' then
      if last && vc.value % 4 == 0 then
        Some([va.value * 4 + vb.value / 16, vb.value % 16 * 16 + vc.value / 4])
      else None
    else if vd.None? then None
    else
      Some([va.value * 4 + vb.value / 16, vb.value % 16 * 16 + vc.value / 4, vc.value % 4 * 64 + vd.value])
  }

  /** The strict decoder: whole quanta, padding only at the end and with zero bits. */
  function Decode(text: string): Option<seq<Byte>> {
    if text == [] then Some([])
    else if |text| < 4 then None
    else
      match DecodeQuantum(text[0], text[1], text[2], text[3], |text| == 4)
      case None => None
      case Some(bytes) =>
        match Decode(text[4..])
        case None => None
        case Some(rest) => Some(bytes + rest)
  }

  /** The four characters for one to three bytes. */
  function Quantum(chunk: seq<Byte>): (q: string)
    requires 1 <= |chunk| <= 3
    ensures |q| == 4
  {
    var b0: int := chunk[0];
    var b1: int := if |chunk| > 1 then chunk[1] else 0;
    var b2: int := if |chunk| > 2 then chunk[2] else 0;
    var triple := b0 * 0x1_0000 + b1 * 0x100 + b2;
    [Letter(triple / 0x4_0000 % 64),
     Letter(triple / 0x1000 % 64),
     if |chunk| > 1 then Letter(triple / 0x40 % 64) else '=',
     if |chunk| > 2 then Letter(triple % 64) else '=']
  }

  function Encode(bytes: seq<Byte>): string {
    if bytes == [] then []
    else if |bytes| <= 3 then Quantum(bytes)
    else Quantum(bytes[..3]) + Encode(bytes[3..])
  }

  lemma OneByte(v0: int, v1: int)
    requires 0 <= v0 < 64 && 0 <= v1 < 64 && v1 % 16 == 0
    ensures DecodeQuantum(Letter(v0), Letter(v1), '=', '=', true) == Some([v0 * 4 + v1 / 16])
  {
  }

  lemma TwoBytes(v0: int, v1: int, v2: int)
    requires 0 <= v0 < 64 && 0 <= v1 < 64 && 0 <= v2 < 64 && v2 % 4 == 0
    ensures DecodeQuantum(Letter(v0), Letter(v1), Letter(v2), '=', true)
         == Some([v0 * 4 + v1 / 16, v1 % 16 * 16 + v2 / 4])
  {
    hide Letter, Value;
    LetterValue(v0);
    LetterValue(v1);
    LetterValue(v2);
  }

  lemma ThreeBytes(v0: int, v1: int, v2: int, v3: int, last: bool)
    requires 0 <= v0 < 64 && 0 <= v1 < 64 && 0 <= v2 < 64 && 0 <= v3 < 64
    ensures DecodeQuantum(Letter(v0), Letter(v1), Letter(v2), Letter(v3), last)
         == Some([v0 * 4 + v1 / 16, v1 % 16 * 16 + v2 / 4, v2 % 4 * 64 + v3])
  {
    hide Letter, Value;
    LetterValue(v0);
    LetterValue(v1);
    LetterValue(v2);
    LetterValue(v3);
  }

  lemma QuantumDecodes(chunk: seq<Byte>, last: bool)
    requires 1 <= |chunk| <= 3 && (|chunk| < 3 ==> last)
    ensures var q := Quantum(chunk); DecodeQuantum(q[0], q[1], q[2], q[3], last) == Some(chunk)
  {
    hide Letter, DecodeQuantum;
    var b0: int := chunk[0];
    var b1: int := if |chunk| > 1 then chunk[1] else 0;
    var b2: int := if |chunk| > 2 then chunk[2] else 0;
    var triple := b0 * 0x1_0000 + b1 * 0x100 + b2;
    Sextets(b0, b1, b2, triple);
    BytesBack(b0, b1, b2);
    var (v0, v1, v2, v3) := (b0 / 4, b0 % 4 * 16 + b1 / 16, b1 % 16 * 4 + b2 / 64, b2 % 64);
    if |chunk| == 1 {
      OneByte(v0, v1);
      assert chunk == [chunk[0]];
    } else if |chunk| == 2 {
      TwoBytes(v0, v1, v2);
      assert chunk == [chunk[0], chunk[1]];
    } else {
      ThreeBytes(v0, v1, v2, v3, last);
      assert chunk == [chunk[0], chunk[1], chunk[2]];
    }
  }

  lemma BytesBack(b0: int, b1: int, b2: int)
    requires 0 <= b0 < 256 && 0 <= b1 < 256 && 0 <= b2 < 256
    ensures b0 / 4 * 4 + (b0 % 4 * 16 + b1 / 16) / 16 == b0
    ensures (b0 % 4 * 16 + b1 / 16) % 16 * 16 + (b1 % 16 * 4 + b2 / 64) / 4 == b1
    ensures (b1 % 16 * 4 + b2 / 64) % 4 * 64 + b2 % 64 == b2
    ensures b1 == 0 ==> (b0 % 4 * 16 + b1 / 16) % 16 == 0
    ensures b2 == 0 ==> (b1 % 16 * 4 + b2 / 64) % 4 == 0
  {
  }

  /** Where the bits of three bytes go. */
  lemma Sextets(b0: int, b1: int, b2: int, triple: int)
    requires 0 <= b0 < 256 && 0 <= b1 < 256 && 0 <= b2 < 256
    requires triple == b0 * 0x1_0000 + b1 * 0x100 + b2
    ensures triple / 0x4_0000 % 64 == b0 / 4
    ensures triple / 0x1000 % 64 == b0 % 4 * 16 + b1 / 16
    ensures triple / 0x40 % 64 == b1 % 16 * 4 + b2 / 64
    ensures triple % 64 == b2 % 64
  {
    assert triple == b0 / 4 * 0x4_0000 + (b0 % 4 * 0x1_0000 + b1 * 0x100 + b2);
    assert triple / 0x4_0000 == b0 / 4;
    assert triple == (b0 * 16 + b1 / 16) * 0x1000 + (b1 % 16 * 0x100 + b2);
    assert triple / 0x1000 == b0 / 4 * 64 + (b0 % 4 * 16 + b1 / 16);
    assert triple / 0x40 == (b0 * 16 + b1 / 16) * 64 + (b1 % 16 * 4 + b2 / 64);
  }

  /** Decoding undoes encoding, and the length is four characters for every three bytes begun. */
  lemma {:induction false} RoundTrip(bytes: seq<Byte>)
    ensures Decode(Encode(bytes)) == Some(bytes)
    ensures |Encode(bytes)| == 4 * ((|bytes| + 2) / 3)
  {
    hide Quantum, DecodeQuantum;
    if bytes != [] {
      var chunk := if |bytes| <= 3 then bytes else bytes[..3];
      var rest := bytes[|chunk|..];
      RoundTrip(rest);
      QuantumDecodes(chunk, rest == []);
      assert bytes == chunk + rest;
      var text := Encode(bytes);
      assert text == Quantum(chunk) + Encode(rest);
      assert text[4..] == Encode(rest);
    }
  }

  /** The characters of one chunk, looked up in the alphabet. */
  method QuantumText(chunk: seq<Byte>) returns (q: string)
    requires 1 <= |chunk| <= 3
    ensures q == Quantum(chunk)
  {
    hide Letter;
    var b0: int := chunk[0];
    var b1: int := if |chunk| > 1 then chunk[1] else 0;
    var b2: int := if |chunk| > 2 then chunk[2] else 0;
    var triple := b0 * 0x1_0000 + b1 * 0x100 + b2;
    AlphabetLetters(triple / 0x4_0000 % 64);
    AlphabetLetters(triple / 0x1000 % 64);
    AlphabetLetters(triple / 0x40 % 64);
    AlphabetLetters(triple % 64);
    q := [ALPHABET[triple / 0x4_0000 % 64]];
    q := q + [ALPHABET[triple / 0x1000 % 64]];
    q := q + [if |chunk| > 1 then ALPHABET[triple / 0x40 % 64] else '='];
    q := q + [if |chunk| > 2 then ALPHABET[triple % 64] else '='];
  }

  /** The encoder: one pass over the bytes in chunks of three. */
  method Base64Text(bytes: seq<Byte>) returns (out: string)
    ensures out == Encode(bytes)
    ensures Decode(out) == Some(bytes)
  {
    hide Encode, Quantum, Decode;
    out := [];
    var i := 0;
    EncodeNothing();
    assert bytes[0..] == bytes;
    while i < |bytes|
      invariant i <= |bytes| && out + Encode(bytes[i..]) == Encode(bytes)
    {
      var end := if i + 3 <= |bytes| then i + 3 else |bytes|;
      var chunk := bytes[i..end];
      var q := QuantumText(chunk);
      assert bytes[i..] == chunk + bytes[end..];
      EncodeSplit(bytes[i..], chunk, bytes[end..]);
      assert out + (q + Encode(bytes[end..])) == (out + q) + Encode(bytes[end..]);
      out := out + q;
      i := end;
    }
    assert bytes[i..] == [] && out + [] == out;
    RoundTrip(bytes);
  }

  lemma EncodeNothing()
    ensures Encode([]) == []
  {
  }

  lemma EncodeSplit(bytes: seq<Byte>, chunk: seq<Byte>, rest: seq<Byte>)
    requires bytes == chunk + rest && 1 <= |chunk| <= 3 && (|chunk| < 3 ==> rest == [])
    ensures Encode(bytes) == Quantum(chunk) + Encode(rest)
  {
  }

  // ------------------------------------------------------------------ test vectors

  lemma VectorF()
    ensures Encode([0x66]) == "Zg=="
  {
  }

  lemma VectorFo()
    ensures Encode([0x66, 0x6F]) == "Zm8="
  {
  }

  lemma VectorFoo()
    ensures Encode([0x66, 0x6F, 0x6F]) == "Zm9v"
  {
  }

  lemma VectorBar()
    ensures Encode([0x62, 0x61, 0x72]) == "YmFy"
  {
  }

  /** Vectors of section 10 of RFC 4648. */
  lemma TestVectors()
    ensures Encode([]) == "" && Encode([0x66]) == "Zg==" && Encode([0x66, 0x6F]) == "Zm8="
    ensures Encode([0x66, 0x6F, 0x6F]) == "Zm9v"
    ensures Encode([0x66, 0x6F, 0x6F, 0x62, 0x61, 0x72]) == "Zm9vYmFy"
  {
    hide Quantum;
    VectorF();
    VectorFo();
    VectorFoo();
    VectorBar();
    var foobar: seq<Byte> := [0x66, 0x6F, 0x6F, 0x62, 0x61, 0x72];
    assert foobar[..3] == [0x66, 0x6F, 0x6F] && foobar[3..] == [0x62, 0x61, 0x72];
    assert Encode(foobar[..3]) == Quantum(foobar[..3]);
  }
}
