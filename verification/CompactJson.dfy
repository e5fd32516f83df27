/** The journal's line format: a record as one line of compact JSON text in UTF-8, with its keys in
    alphabetical order, as the JSON library prints it, and a reader of exactly these lines. Everything that
    `Journal` and `Restart` rely on is proved for it, whatever texts times and hashes have, as long as these
    read back. */
module CompactJson {
  import opened Bits
  import opened Digests
  import opened Text
  import opened Records
  import opened Journal
  import opened Restart
  import opened HexBytes
  import opened Utf8

  // ------------------------------------------------------------------ strings

  /** A character inside a JSON string: quotation mark, backslash and control characters are escaped. */
  function EscapeChar(c: char): (s: string)
    ensures |s| >= 1
  {
    if c == '"' then "\\\""
    else if c == '\\' then "\\\\"
    else if c as int == 8 then "\\b"
    else if c as int == 9 then "\\t"
    else if c as int == 10 then "\\n"
    else if c as int == 12 then "\\f"
    else if c as int == 13 then "\\r"
    else if c as int < 0x20 then "\\u00" + [HexDigit(c as int / 16), HexDigit(c as int % 16)]
    else [c]
  }

  function Escape(s: string): string {
    if s == [] then [] else EscapeChar(s[0]) + Escape(s[1..])
  }

  /** The character an escape stands for, and how long the escape is. */
  function TakeEscape(s: string): Option<(char, nat)>
    requires s != [] && s[0] == '\\'
  {
    if |s| < 2 then None
    else if s[1] == '"' || s[1] == '\\' then Some((s[1], 2))
    else if s[1] == 'b' then Some((8 as char, 2))
    else if s[1] == 't' then Some((9 as char, 2))
    else if s[1] == 'n' then Some((10 as char, 2))
    else if s[1] == 'f' then Some((12 as char, 2))
    else if s[1] == 'r' then Some((13 as char, 2))
    else if |s| >= 6 && s[1..4] == "u00" && HexValue(s[4]).Some? && HexValue(s[5]).Some? then
      Some(((HexValue(s[4]).value * 16 + HexValue(s[5]).value) as char, 6))
    else None
  }

  /** The string up to the closing quotation mark, and the text behind that. */
  function TakeString(s: string): Option<(string, string)>
    decreases |s|
  {
    if s == [] then None
    else if s[0] == '"' then Some(([], s[1..]))
    else if s[0] != '\\' then
      match TakeString(s[1..])
      case None => None
      case Some((t, rest)) => Some(([s[0]] + t, rest))
    else
      match TakeEscape(s)
      case None => None
      case Some((c, n)) =>
        if n == 0 || n > |s| then None
        else
          match TakeString(s[n..])
          case None => None
          case Some((t, rest)) => Some(([c] + t, rest))
  }

  lemma TakeEscapeBack(c: char, more: string)
    requires EscapeChar(c)[0] == '\\'
    ensures TakeEscape(EscapeChar(c) + more) == Some((c, |EscapeChar(c)|))
  {
    var s := EscapeChar(c) + more;
    HexDigitValue(c as int / 16 % 16);
    HexDigitValue(c as int % 16);
    if |EscapeChar(c)| == 6 {
      assert s[1..4] == "u00";
    }
  }

  lemma TakeCharBack(c: char, more: string)
    ensures TakeString(EscapeChar(c) + more)
         == match TakeString(more) case None => None case Some((t, rest)) => Some(([c] + t, rest))
  {
    hide TakeEscape;
    var s := EscapeChar(c) + more;
    assert s[|EscapeChar(c)|..] == more;
    if EscapeChar(c)[0] == '\\' {
      TakeEscapeBack(c, more);
    }
  }

  /** A string is read back up to its closing quotation mark. */
  lemma {:induction false} TakeStringBack(s: string, rest: string)
    ensures TakeString(Escape(s) + ("\"" + rest)) == Some((s, rest))
  {
    hide EscapeChar;
    if s == [] {
      assert Escape(s) + ("\"" + rest) == "\"" + rest && ("\"" + rest)[1..] == rest;
      QuoteEnds(rest);
    } else {
      TakeStringBack(s[1..], rest);
      TakeCharBack(s[0], Escape(s[1..]) + ("\"" + rest));
      assert Escape(s) + ("\"" + rest) == EscapeChar(s[0]) + (Escape(s[1..]) + ("\"" + rest));
      assert [s[0]] + s[1..] == s;
    }
  }

  lemma QuoteEnds(rest: string)
    ensures TakeString("\"" + rest) == Some(([], rest))
  {
    assert ("\"" + rest)[1..] == rest;
  }

  // ------------------------------------------------------------------ lines

  /** A record whose time and hash are texts. */
  datatype RecordText = RecordText(
    commitment: string, loggedAt: string, saltRef: Option<U64>, seqNo: U64, subject: string)

  const COMMITMENT: string := "{\"commitment\":\""
  const LOGGED_AT: string := ",\"logged_at\":\""
  const SALT_REF: string := ",\"salt_ref\":"
  const SEQ: string := ",\"seq\":"
  const SUBJECT: string := ",\"subject\":\""

  function SaltText(salt: Option<U64>): string {
    match salt
    case None => "null"
    case Some(n) => Decimal(n)
  }

  /** The record and whatever follows it. */
  function PrintTo(t: RecordText, rest: string): string {
    COMMITMENT + (Escape(t.commitment) + ("\"" + FromLoggedAt(t, rest)))
  }

  function FromLoggedAt(t: RecordText, rest: string): string {
    LOGGED_AT + (Escape(t.loggedAt) + ("\"" + FromSaltRef(t, rest)))
  }

  function FromSaltRef(t: RecordText, rest: string): string {
    SALT_REF + (SaltText(t.saltRef) + FromSeq(t, rest))
  }

  function FromSeq(t: RecordText, rest: string): string {
    SEQ + (Decimal(t.seqNo) + FromSubject(t, rest))
  }

  function FromSubject(t: RecordText, rest: string): string {
    SUBJECT + (Escape(t.subject) + ("\"" + ("}" + rest)))
  }

  function Print(t: RecordText): string {
    PrintTo(t, "")
  }

  function Expect(s: string, key: string): Option<string> {
    if key <= s then Some(s[|key|..]) else None
  }

  function TakeSalt(s: string): Option<(Option<U64>, string)> {
    if "null" <= s then Some((None, s[4..]))
    else
      match TakeNumber(s)
      case Some((n, rest)) => if n < TWO_TO_THE_64 then Some((Some(n), rest)) else None
      case None => None
  }

  function TakeU64(s: string): Option<(U64, string)> {
    match TakeNumber(s)
    case Some((n, rest)) => if n < TWO_TO_THE_64 then Some((n, rest)) else None
    case None => None
  }

  function KeyAndString(s: string, key: string): Option<(string, string)> {
    match Expect(s, key)
    case None => None
    case Some(rest) => TakeString(rest)
  }

  function KeyAndSalt(s: string): Option<(Option<U64>, string)> {
    match Expect(s, SALT_REF)
    case None => None
    case Some(rest) => TakeSalt(rest)
  }

  function KeyAndSeq(s: string): Option<(U64, string)> {
    match Expect(s, SEQ)
    case None => None
    case Some(rest) => TakeU64(rest)
  }

  /** A record in front of a text, and the rest of the text. */
  function TakeRecord(s: string): Option<(RecordText, string)> {
    match KeyAndString(s, COMMITMENT)
    case None => None
    case Some((commitment, s1)) =>
      match KeyAndString(s1, LOGGED_AT)
      case None => None
      case Some((loggedAt, s2)) =>
        match KeyAndSalt(s2)
        case None => None
        case Some((salt, s3)) =>
          match KeyAndSeq(s3)
          case None => None
          case Some((seqNo, s4)) =>
            match KeyAndString(s4, SUBJECT)
            case None => None
            case Some((subject, s5)) =>
              match Expect(s5, "}")
              case None => None
              case Some(rest) => Some((RecordText(commitment, loggedAt, salt, seqNo, subject), rest))
  }

  lemma ExpectBack(key: string, rest: string)
    ensures Expect(key + rest, key) == Some(rest)
  {
    assert (key + rest)[..|key|] == key && (key + rest)[|key|..] == rest;
  }

  lemma StringBack(key: string, s: string, rest: string)
    ensures KeyAndString(key + (Escape(s) + ("\"" + rest)), key) == Some((s, rest))
  {
    hide Expect, TakeString;
    ExpectBack(key, Escape(s) + ("\"" + rest));
    TakeStringBack(s, rest);
  }

  lemma SaltBack(t: RecordText, rest: string)
    ensures KeyAndSalt(FromSaltRef(t, rest)) == Some((t.saltRef, FromSeq(t, rest)))
  {
    hide Expect, TakeNumber, Decimal;
    var more := FromSeq(t, rest);
    ExpectBack(SALT_REF, SaltText(t.saltRef) + more);
    assert more[0] == ',';
    match t.saltRef
    case None => assert ("null" + more)[4..] == more;
    case Some(n) =>
      TakeNumberBack(n, more);
      assert (Decimal(n) + more)[0] == Decimal(n)[0] != 'n';
  }

  lemma SeqBack(t: RecordText, rest: string)
    ensures KeyAndSeq(FromSeq(t, rest)) == Some((t.seqNo, FromSubject(t, rest)))
  {
    hide Expect, TakeNumber, Decimal;
    ExpectBack(SEQ, Decimal(t.seqNo) + FromSubject(t, rest));
    assert FromSubject(t, rest)[0] == ',';
    TakeNumberBack(t.seqNo, FromSubject(t, rest));
  }

  /** A printed record is read back, and what follows it is left. */
  lemma TakeRecordBack(t: RecordText, rest: string)
    ensures TakeRecord(PrintTo(t, rest)) == Some((t, rest))
  {
    hide KeyAndString, KeyAndSalt, KeyAndSeq, Expect, FromSaltRef, FromSeq;
    StringBack(COMMITMENT, t.commitment, FromLoggedAt(t, rest));
    StringBack(LOGGED_AT, t.loggedAt, FromSaltRef(t, rest));
    SaltBack(t, rest);
    SeqBack(t, rest);
    StringBack(SUBJECT, t.subject, "}" + rest);
    ExpectBack("}", rest);
  }

  lemma Regroup2(a: string, b: string, c: string, d: string)
    ensures (a + (b + c)) + d == a + (b + (c + d))
  {
  }

  lemma Regroup3(a: string, b: string, c: string, d: string)
    ensures (a + (b + ("\"" + c))) + d == a + (b + ("\"" + (c + d)))
  {
  }

  lemma PrintThen(t: RecordText, rest: string)
    ensures Print(t) + rest == PrintTo(t, rest)
  {
    hide Escape, Decimal;
    Regroup2(SUBJECT, Escape(t.subject) + "\"", "}", rest);
    assert FromSubject(t, "") + rest == FromSubject(t, rest);
    Regroup2(SEQ, Decimal(t.seqNo), FromSubject(t, ""), rest);
    Regroup2(SALT_REF, SaltText(t.saltRef), FromSeq(t, ""), rest);
    Regroup3(LOGGED_AT, Escape(t.loggedAt), FromSaltRef(t, ""), rest);
    Regroup3(COMMITMENT, Escape(t.commitment), FromLoggedAt(t, ""), rest);
  }

  /** The reader accepts exactly the printed records. */
  function ParseText(s: string): Option<RecordText> {
    match TakeRecord(s)
    case None => None
    case Some((t, rest)) => if rest == [] && Print(t) == s then Some(t) else None
  }

  lemma ParsesExactly(s: string, t: RecordText)
    ensures ParseText(s) == Some(t) <==> s == Print(t)
  {
    hide TakeRecord, PrintTo;
    TakeRecordBack(t, "");
  }

  lemma Quoted(s: string, key: string, rest: string)
    ensures Escape(s) + ("\"" + (key + rest)) == Escape(s) + (("\"" + key) + rest)
  {
  }

  /** A record as it is printed: sorted keys, no white space, and its texts escaped. */
  lemma PrintedRecord(t: RecordText)
    ensures Print(t)
         == "{\"commitment\":\"" + (Escape(t.commitment)
            + ("\",\"logged_at\":\"" + (Escape(t.loggedAt)
               + ("\",\"salt_ref\":" + ((if t.saltRef.None? then "null" else Decimal(t.saltRef.value))
                  + (",\"seq\":" + (Decimal(t.seqNo)
                     + (",\"subject\":\"" + (Escape(t.subject) + "\"}")))))))))
  {
    hide Escape, Decimal;
    Quoted(t.commitment, LOGGED_AT, Escape(t.loggedAt) + ("\"" + FromSaltRef(t, "")));
    Quoted(t.loggedAt, SALT_REF, SaltText(t.saltRef) + FromSeq(t, ""));
    assert "\"" + ("}" + "") == "\"}";
  }

  // ------------------------------------------------------------------ the codec

  function FieldsOf(v: Json): Option<RecordText> {
    if v.Obj? && GetU64(v.fields, "seq").Some? && GetStr(v.fields, "logged_at").Some?
       && GetStr(v.fields, "subject").Some? && GetStr(v.fields, "commitment").Some?
    then
      Some(RecordText(
             GetStr(v.fields, "commitment").value, GetStr(v.fields, "logged_at").value,
             GetU64(v.fields, "salt_ref"), GetU64(v.fields, "seq").value, GetStr(v.fields, "subject").value))
    else None
  }

  function ValueOf(t: RecordText): Json {
    Obj(map[
          "seq" := UInt(t.seqNo), "logged_at" := Str(t.loggedAt), "subject" := Str(t.subject),
          "commitment" := Str(t.commitment), "salt_ref" := SaltJson(t.saltRef)])
  }

  lemma FieldsOfValue(t: RecordText)
    ensures FieldsOf(ValueOf(t)) == Some(t)
  {
    var fields := ValueOf(t).fields;
    assert GetU64(fields, "seq") == Some(t.seqNo) && GetStr(fields, "logged_at") == Some(t.loggedAt);
    assert GetStr(fields, "subject") == Some(t.subject) && GetStr(fields, "commitment") == Some(t.commitment);
    assert GetU64(fields, "salt_ref") == t.saltRef;
  }

  /** Only record values are ever printed to a journal. */
  function PrintJson(v: Json): seq<Byte> {
    match FieldsOf(v)
    case None => Encode("null")
    case Some(t) => Encode(Print(t))
  }

  function ParseJson(s: string): Result<Json, string> {
    match ParseText(s)
    case None => Err("not a record")
    case Some(t) => Ok(ValueOf(t))
  }

  function JournalCodec(f: Formats): Codec {
    Codec(f, Decode, PrintJson, ParseJson)
  }

  function TextOf(f: Formats, r: CommitRecord): RecordText {
    RecordText(f.printHash(r.commitment), f.printTime(r.loggedAt), r.saltRef, r.seqNo, r.subject)
  }

  lemma LineIsPrinted(f: Formats, r: CommitRecord)
    ensures RecordLine(JournalCodec(f), r) == Encode(Print(TextOf(f, r)))
    ensures ToJson(f, r) == ValueOf(TextOf(f, r))
  {
    hide Print, Encode;
    FieldsOfValue(TextOf(f, r));
  }

  // ------------------------------------------------------------------ printed text

  predicate NoControls(s: string) {
    forall i | 0 <= i < |s| :: s[i] as int >= 0x20
  }

  lemma {:induction false} EscapeNoControls(s: string)
    ensures NoControls(Escape(s))
  {
    if s != [] {
      EscapeNoControls(s[1..]);
      EscapeCharNoControls(s[0]);
    }
  }

  lemma EscapeCharNoControls(c: char)
    ensures NoControls(EscapeChar(c))
  {
  }

  lemma PrintNoControls(t: RecordText)
    ensures NoControls(Print(t))
  {
    hide Escape;
    EscapeNoControls(t.commitment);
    EscapeNoControls(t.loggedAt);
    EscapeNoControls(t.subject);
    assert NoControls(FromSubject(t, ""));
    assert NoControls(FromSeq(t, ""));
    assert NoControls(SaltText(t.saltRef));
    assert NoControls(FromSaltRef(t, ""));
    assert NoControls(FromLoggedAt(t, ""));
  }

  /** A record starts at `i`, as far as its first three characters go. */
  predicate StartsAt(s: string, i: nat) {
    i + 3 <= |s| && s[i] == '{' && s[i + 1] == '"' && s[i + 2] == 'c'
  }

  predicate Quiet(s: string) {
    forall i | 0 <= i < |s| :: !StartsAt(s, i)
  }

  lemma QuietBehind(a: string, b: string)
    requires '{' !in a && Quiet(b)
    ensures Quiet(a + b)
  {
    forall i | 0 <= i < |a + b| ensures !StartsAt(a + b, i) {
      if i < |a| {
        assert (a + b)[i] == a[i] && a[i] in a;
      } else {
        assert !StartsAt(b, i - |a|);
      }
    }
  }

  lemma EscapeCharBrace(c: char)
    ensures if c == '{' then EscapeChar(c) == "{" else '{' !in EscapeChar(c)
    ensures EscapeChar(c)[0] != '"'
  {
  }

  /** A brace inside a string is followed by a quotation mark only where the string ends. */
  lemma {:induction false} QuietString(s: string, rest: string)
    requires Quiet(rest) && (rest == [] || rest[0] != 'c')
    ensures Quiet(Escape(s) + ("\"" + rest))
  {
    hide EscapeChar;
    QuietBehind("\"", rest);
    if s == [] {
      assert Escape(s) + ("\"" + rest) == "\"" + rest;
    } else {
      var more := Escape(s[1..]) + ("\"" + rest);
      QuietString(s[1..], rest);
      EscapeCharBrace(s[0]);
      assert Escape(s) + ("\"" + rest) == EscapeChar(s[0]) + more;
      if s[0] == '{' {
        BraceQuiet(s[1..], rest);
      } else {
        QuietBehind(EscapeChar(s[0]), more);
      }
    }
  }

  lemma BraceQuiet(s: string, rest: string)
    requires Quiet(Escape(s) + ("\"" + rest)) && (rest == [] || rest[0] != 'c')
    ensures Quiet("{" + (Escape(s) + ("\"" + rest)))
  {
    hide EscapeChar;
    var more := Escape(s) + ("\"" + rest);
    var all := "{" + more;
    if s == [] {
      assert more == "\"" + rest;
    } else {
      EscapeCharBrace(s[0]);
      assert more[0] == EscapeChar(s[0])[0];
    }
    forall i | 0 <= i < |all| ensures !StartsAt(all, i) {
      if i > 0 {
        assert !StartsAt(more, i - 1);
      }
    }
  }

  lemma QuietFromSubject(t: RecordText)
    ensures Quiet(FromSubject(t, ""))
  {
    hide Escape;
    QuietBehind("}", "");
    QuietString(t.subject, "}");
    assert "}" + "" == "}";
    QuietBehind(SUBJECT, Escape(t.subject) + ("\"" + ("}" + "")));
  }

  lemma QuietFromSaltRef(t: RecordText)
    ensures Quiet(FromSaltRef(t, ""))
  {
    hide FromSubject, Decimal;
    QuietFromSubject(t);
    DigitsQuiet(Decimal(t.seqNo), FromSubject(t, ""));
    QuietBehind(SEQ, Decimal(t.seqNo) + FromSubject(t, ""));
    SaltQuiet(t.saltRef, FromSeq(t, ""));
    QuietBehind(SALT_REF, SaltText(t.saltRef) + FromSeq(t, ""));
  }

  /** No record starts inside a printed record. */
  lemma NoInnerRecord(t: RecordText, i: nat)
    ensures i > 0 ==> !StartsAt(Print(t), i)
  {
    hide Escape, FromSaltRef;
    QuietFromSaltRef(t);
    assert FromSaltRef(t, "")[0] == ',' by { SaltRefStarts(t); }
    QuietString(t.loggedAt, FromSaltRef(t, ""));
    QuietBehind(LOGGED_AT, Escape(t.loggedAt) + ("\"" + FromSaltRef(t, "")));
    QuietString(t.commitment, FromLoggedAt(t, ""));
    var body := Escape(t.commitment) + ("\"" + FromLoggedAt(t, ""));
    QuietBehind(COMMITMENT[1..], body);
    assert Print(t) == "{" + (COMMITMENT[1..] + body);
    assert i > 0 ==> (StartsAt(Print(t), i) <==> StartsAt(COMMITMENT[1..] + body, i - 1));
  }

  lemma SaltRefStarts(t: RecordText)
    ensures FromSaltRef(t, "") != [] && FromSaltRef(t, "")[0] == ','
  {
  }

  lemma DigitsQuiet(digits: string, rest: string)
    requires Quiet(rest) && forall i | 0 <= i < |digits| :: IsDigit(digits[i])
    ensures Quiet(digits + rest)
  {
    QuietBehind(digits, rest);
  }

  lemma SaltQuiet(salt: Option<U64>, rest: string)
    requires Quiet(rest)
    ensures Quiet(SaltText(salt) + rest)
  {
    if salt.Some? {
      DigitsQuiet(Decimal(salt.value), rest);
    } else {
      QuietBehind("null", rest);
    }
  }

  lemma PrintEnds(t: RecordText)
    ensures |Print(t)| >= 4 && StartsAt(Print(t), 0) && Print(t)[|Print(t)| - 1] == '}'
  {
  }

  // ------------------------------------------------------------------ bytes of printed text

  lemma {:induction false} NoLineFeed(s: string)
    requires NoControls(s)
    ensures forall i | 0 <= i < |Encode(s)| :: Encode(s)[i] >= 0x20
  {
    if s != [] {
      assert NoControls(s[1..]);
      NoLineFeed(s[1..]);
      CharBytes(s[0]);
    }
  }

  lemma CharBytes(c: char)
    requires c as int >= 0x20
    ensures forall i | 0 <= i < |EncodeChar(c)| :: EncodeChar(c)[i] >= 0x20
  {
  }

  lemma LastByte(s: string)
    requires s != [] && s[|s| - 1] as int < 0x80
    ensures Encode(s) == Encode(s[..|s| - 1]) + [s[|s| - 1] as int]
  {
    var last := [s[|s| - 1]];
    assert s == s[..|s| - 1] + last;
    EncodeConcat(s[..|s| - 1], last);
    AsciiEncoding(last);
    assert Encode(last) == [s[|s| - 1] as int];
  }

  lemma FirstByte(s: string)
    requires s != [] && (s[0] as int < 0x80 || Encode(s)[0] < 0x80)
    ensures Encode(s)[0] == s[0] as int
  {
  }

  /** A line that is read as a record is a printed record. */
  lemma ParsedIsPrinted(f: Formats, line: seq<Byte>) returns (t: RecordText)
    requires Classify(JournalCodec(f), line).Parsed?
    ensures line == Encode(Print(t)) && Decode(line) == Some(Print(t))
  {
    hide Print, FromJson, TakeRecord;
    var s := Decode(line).value;
    t := ParseText(s).value;
    ParsesExactly(s, t);
  }

  lemma FaithfulRecordLine(f: Formats, r: CommitRecord)
    ensures FaithfulLine(JournalCodec(f), r)
  {
    hide Print, Encode, TakeRecord, ValueOf;
    var t := TextOf(f, r);
    LineIsPrinted(f, r);
    PrintNoControls(t);
    NoLineFeed(Print(t));
    PrintEnds(t);
    LastByte(Print(t));
    RoundTrip(Print(t));
    ParsesExactly(Print(t), t);
  }

  /** A record printed behind any text is no record. */
  lemma GluedIsNoRecord(f: Formats, t: seq<Byte>, r: CommitRecord)
    requires t != []
    ensures !Classify(JournalCodec(f), t + RecordLine(JournalCodec(f), r)).Parsed?
  {
    hide Print;
    var glued := t + RecordLine(JournalCodec(f), r);
    if Classify(JournalCodec(f), glued).Parsed? {
      var b := ParsedIsPrinted(f, glued);
      var i := InnerRecord(f, t, r, Print(b));
      NoInnerRecord(b, i);
    }
  }

  /** Where the record starts in a text that ends with it. */
  lemma InnerRecord(f: Formats, t: seq<Byte>, r: CommitRecord, p: string) returns (i: nat)
    requires t != [] && t + RecordLine(JournalCodec(f), r) == Encode(p)
    ensures i > 0 && StartsAt(p, i)
  {
    hide Print, Encode, Decode;
    var a := Print(TextOf(f, r));
    LineIsPrinted(f, r);
    PrintEnds(TextOf(f, r));
    FirstByte(a);
    assert Encode(p)[|t|] == Encode(a)[0] == 0x7B;
    i := CutExactly(p, |t|);
    assert Encode(p)[..|t|] == t && Encode(p)[|t|..] == Encode(a);
    EncodeConcat(p[..i], p[i..]);
    assert p == p[..i] + p[i..];
    assert Encode(p[i..]) == Encode(a);
    EncodeInjective(p[i..], a);
    EmptyEncoding(p[..i]);
  }

  lemma EmptyEncoding(s: string)
    ensures Encode(s) == [] <==> s == []
  {
  }

  /** A record cut short is no record: no printed record is the beginning of another. */
  lemma CutIsNoRecord(f: Formats, r: CommitRecord, n: nat)
    requires 0 < n < |RecordLine(JournalCodec(f), r)|
    ensures !Classify(JournalCodec(f), RecordLine(JournalCodec(f), r)[..n]).Parsed?
  {
    hide Print, Encode, Decode, Classify, RecordLine;
    var t := TextOf(f, r);
    LineIsPrinted(f, r);
    if Classify(JournalCodec(f), RecordLine(JournalCodec(f), r)[..n]).Parsed? {
      var b := ParsedIsPrinted(f, Encode(Print(t))[..n]);
      var i := CutExactly(Print(t), n);
      assert Print(b) == Print(t)[..i];
      PrefixFree(b, t, Print(t)[i..]);
    }
  }

  lemma PrefixFree(b: RecordText, t: RecordText, x: string)
    requires Print(t) == Print(b) + x
    ensures x == [] && b == t
  {
    hide TakeRecord, PrintTo;
    PrintThen(b, x);
    TakeRecordBack(b, x);
    TakeRecordBack(t, "");
  }

  lemma BraceVisible(f: Formats, line: seq<Byte>)
    requires line != [] && line[0] == 0x7B
    ensures !Classify(JournalCodec(f), line).BlankLine?
  {
    hide ParseJson, FromJson;
    if Decode(line).Some? {
      var s := Decode(line).value;
      EmptyEncoding(s);
      FirstByte(s);
      assert s[0] in s && !IsWhitespace(s[0]);
    }
  }

  lemma LineStarts(f: Formats, r: CommitRecord)
    ensures var line := RecordLine(JournalCodec(f), r); line != [] && line[0] == 0x7B
  {
    hide Print, Encode;
    LineIsPrinted(f, r);
    PrintEnds(TextOf(f, r));
    FirstByte(Print(TextOf(f, r)));
  }

  /** Everything that is relied on holds for this line format. */
  lemma AssumptionsMet(f: Formats)
    requires f.RoundTrip()
    ensures Faithful(JournalCodec(f)) && NoGluedRecords(JournalCodec(f))
    ensures NoCutRecords(JournalCodec(f)) && CutsStayVisible(JournalCodec(f))
  {
    hide Classify, RecordLine, FaithfulLine;
    var k := JournalCodec(f);
    forall r ensures FaithfulLine(k, r) {
      FaithfulRecordLine(f, r);
    }
    forall t, r | t != [] && !Classify(k, t).BlankLine? ensures !Classify(k, t + RecordLine(k, r)).Parsed? {
      GluedIsNoRecord(f, t, r);
    }
    forall r, n: nat | 0 < n < |RecordLine(k, r)|
      ensures var kind := Classify(k, RecordLine(k, r)[..n]); kind.Garbled? || kind.Unreadable?
    {
      CutIsNoRecord(f, r, n);
      LineStarts(f, r);
      BraceVisible(f, RecordLine(k, r)[..n]);
    }
    forall r, n: nat, t | 0 < n <= |RecordLine(k, r)| ensures !Classify(k, RecordLine(k, r)[..n] + t).BlankLine? {
      LineStarts(f, r);
      BraceVisible(f, RecordLine(k, r)[..n] + t);
    }
  }

  // ------------------------------------------------------------------ torn journals

  /** A write of a record that stops after `n` bytes can be restarted from if and only if it does not stop
      inside a character. */
  lemma TornWriteAtBoundary(f: Formats, file: seq<Byte>, r: CommitRecord, n: nat)
    requires f.RoundTrip() && Clean(JournalCodec(f), file) && r.seqNo == |Lines(file)|
    requires 0 < n <= |RecordLine(JournalCodec(f), r)|
    ensures var line := RecordLine(JournalCodec(f), r);
            Replay(JournalCodec(f), file + line[..n]).Ok? <==> IsBoundary(line, n)
  {
    hide Clean, Lines, RecordLine, Replay, Print;
    AssumptionsMet(f);
    TornWriteExact(JournalCodec(f), file, r, n);
    LineIsPrinted(f, r);
    var i := CutExactly(Print(TextOf(f, r)), n);
  }

  /** A subject with one two-byte character, and a write that stops between its bytes: the service does not
      start on what is left. */
  lemma TornCharacter(f: Formats, c: Hash, t: Timestamp) returns (r: CommitRecord, n: nat)
    requires f.RoundTrip()
    ensures r.subject == "\U{e9}" && r.seqNo == 0
    ensures var line := RecordLine(JournalCodec(f), r);
            0 < n < |line| && Replay(JournalCodec(f), line[..n]).Err?
  {
    r := CommitRecord(0, t, "\U{e9}", c, None);
    var (k, text) := (JournalCodec(f), TextOf(f, r));
    var line := RecordLine(k, r);
    n := AccentedSubject(text);
    LineIsPrinted(f, r);
    FreshLog(k);
    TornWriteAtBoundary(f, [], r, n);
    assert [] + line[..n] == line[..n];
  }

  lemma AccentedSubject(t: RecordText) returns (n: nat)
    requires t.subject == "\U{e9}"
    ensures 0 < n < |Encode(Print(t))| && !IsBoundary(Encode(Print(t)), n)
  {
    hide Print;
    var end := "\U{e9}\"}";
    var front := AccentLast(t, end);
    EncodeConcat(front, end);
    assert Encode(end) == [0xC3, 0xA9] + Encode("\"}") by { assert end[1..] == "\"}"; }
    n := |Encode(front)| + 1;
    assert Encode(Print(t))[n] == 0xA9;
  }

  lemma AccentLast(t: RecordText, end: string) returns (front: string)
    requires t.subject == "\U{e9}" && end == "\U{e9}\"}"
    ensures Print(t) == front + end
  {
    hide Decimal;
    assert Escape(t.subject) == "\U{e9}" by { assert t.subject[1..] == ""; }
    hide Escape;
    assert FromSubject(t, "") == SUBJECT + end;
    var seqNo := SEQ + (Decimal(t.seqNo) + SUBJECT);
    Regroup2(SEQ, Decimal(t.seqNo), SUBJECT, end);
    var salt := SALT_REF + (SaltText(t.saltRef) + seqNo);
    Regroup2(SALT_REF, SaltText(t.saltRef), seqNo, end);
    var loggedAt := LOGGED_AT + (Escape(t.loggedAt) + ("\"" + salt));
    Regroup3(LOGGED_AT, Escape(t.loggedAt), salt, end);
    front := COMMITMENT + (Escape(t.commitment) + ("\"" + loggedAt));
    Regroup3(COMMITMENT, Escape(t.commitment), loggedAt, end);
  }

  /** A journal that consists of the first byte of a record starts an empty log. The first record appended to it
      is lost at the next start, and if the torn line got a line feed the service does not start at all. */
  lemma TornJournal(f: Formats, r: CommitRecord)
    requires f.RoundTrip()
    ensures var k := JournalCodec(f);
            && Replay(k, [0x7B]) == Ok([]) && Replay(k, [0x7B] + Written(k, r)) == Ok([])
            && Replay(k, [0x7B, LF]) == Ok([]) && Replay(k, [0x7B, LF] + Written(k, r)).Err?
  {
    hide Replay, RecordLine, Classify, Lines, FaithfulLine;
    var k := JournalCodec(f);
    var torn: seq<Byte> := [0x7B];
    AssumptionsMet(f);
    LineOfRecord(k, r);
    TornByte(f, r);
    LoneLine(k, torn);
    assert torn + [LF] == [0x7B, LF];
    var glued := torn + RecordLine(k, r);
    GluedGarbled(f, r);
    LoneLine(k, glued);
    assert torn + Written(k, r) == glued + [LF];
    OneLine(torn);
    OnlyBadLine(k, torn);
    BadLineBuried(k, [0x7B, LF], r);
  }

  lemma TornByte(f: Formats, r: CommitRecord)
    requires NoCutRecords(JournalCodec(f))
    ensures Classify(JournalCodec(f), [0x7B]).Garbled?
  {
    hide Print, Classify, RecordLine, Encode;
    var line := RecordLine(JournalCodec(f), r);
    LineIsPrinted(f, r);
    LineStarts(f, r);
    TwoBytes(TextOf(f, r));
    assert line[..1] == [0x7B];
    BraceEncoding();
    ReadableIsNotUnreadable(f, "{");
  }

  lemma TwoBytes(t: RecordText)
    ensures |Encode(Print(t))| > 1
  {
    hide Print;
    PrintEnds(t);
  }

  lemma ReadableIsNotUnreadable(f: Formats, text: string)
    ensures !Classify(JournalCodec(f), Encode(text)).Unreadable?
  {
    hide Encode, Decode, ParseJson, FromJson;
    RoundTrip(text);
  }

  lemma GluedGarbled(f: Formats, r: CommitRecord)
    ensures Classify(JournalCodec(f), [0x7B] + RecordLine(JournalCodec(f), r)).Garbled?
  {
    hide Print, Classify, RecordLine, Encode;
    var glued := [0x7B] + RecordLine(JournalCodec(f), r);
    GluedIsNoRecord(f, [0x7B], r);
    BraceVisible(f, glued);
    var p := Print(TextOf(f, r));
    LineIsPrinted(f, r);
    EncodeConcat("{", p);
    BraceEncoding();
    ReadableIsNotUnreadable(f, "{" + p);
  }

  lemma BraceEncoding()
    ensures Encode("{") == [0x7B]
  {
    assert "{"[1..] == "";
  }

  lemma OnlyBadLine(k: Codec, line: seq<Byte>)
    requires !Classify(k, line).Parsed? && Lines(line + [LF]) == [line]
    ensures !AllHold(k, Lines(line + [LF]), 0)
  {
    assert !Holds(k, Lines(line + [LF])[0], 0 + 0);
  }

  /** A single garbled line is a torn tail, terminated or not. */
  lemma LoneLine(k: Codec, line: seq<Byte>)
    requires line != [] && LF !in line && line[|line| - 1] != CR && Classify(k, line).Garbled?
    ensures Replay(k, line) == Replay(k, line + [LF]) == Ok([])
  {
    hide Lines, Classify;
    OneLine(line);
    ReplayExact(k, line);
    ReplayExact(k, line + [LF]);
    assert WholeLines(k, [line]) == [];
  }

  // ------------------------------------------------------------------ texts of times and hashes

  function Zigzag(i: int): nat {
    if i >= 0 then 2 * i else -2 * i - 1
  }

  function Zagzig(n: nat): int {
    if n % 2 == 0 then n / 2 else -((n + 1) / 2)
  }

  function PrintTime(t: Timestamp): string {
    Decimal(Zigzag(t.secs)) + ("." + Decimal(t.nanos))
  }

  function ParseTime(s: string): Option<Timestamp> {
    match TakeNumber(s)
    case None => None
    case Some((secs, rest)) =>
      match Expect(rest, ".")
      case None => None
      case Some(more) =>
        match TakeNumber(more)
        case None => None
        case Some((nanos, end)) => if end == [] then Some(Timestamp(Zagzig(secs), nanos)) else None
  }

  function PrintHash(d: Hash): string {
    Hex(d.bytes)
  }

  function ParseHash(s: string): Option<Hash> {
    match HexDecode(s)
    case Decoded(bytes) => if |bytes| == 32 then Some(Hash(bytes)) else None
    case Rejected => None
    case Panicked => None
  }

  lemma ZigzagBack(i: int)
    ensures Zagzig(Zigzag(i)) == i
  {
  }

  lemma TimeRoundTrip(t: Timestamp)
    ensures ParseTime(PrintTime(t)) == Some(t)
  {
    hide Decimal, TakeNumber, Expect, Zigzag, Zagzig;
    ZigzagBack(t.secs);
    TakeNumberBack(Zigzag(t.secs), "." + Decimal(t.nanos));
    ExpectBack(".", Decimal(t.nanos));
    TakeNumberBack(t.nanos, "");
    assert Decimal(t.nanos) + "" == Decimal(t.nanos);
  }

  /** There are texts for times and hashes that read back: the service's own are not part of this model. */
  lemma FormatsRoundTrip()
    ensures Formats(PrintTime, ParseTime, PrintHash, ParseHash).RoundTrip()
  {
    hide ParseTime, PrintTime, ParseHash, PrintHash;
    forall t ensures ParseTime(PrintTime(t)) == Some(t) {
      TimeRoundTrip(t);
    }
    forall d ensures ParseHash(PrintHash(d)) == Some(d) {
      HashRoundTrip(d);
    }
  }

  lemma HashRoundTrip(d: Hash)
    ensures ParseHash(PrintHash(d)) == Some(d)
  {
    HexRoundTrip(d.bytes);
  }
}
