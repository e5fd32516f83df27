/** The chunked transfer coding of section 7.1 of RFC 9112, as the submission's response reader decodes it. */
module Chunked {
  import opened Bits
  import opened Digests
  import opened Text
  import opened Utf8
  import opened TsaResponse

  const CRLF: seq<Byte> := [13, 10]

  /** `Overflow` is the arithmetic or slice panic of a chunk whose end does not fit the address range. */
  datatype ChunkOutcome = Joined(bytes: seq<Byte>) | BadChunkSize | TruncatedChunk | Overflow

  /** Lossy UTF-8 decoding, of which only its effect on ASCII is relied on. */
  type Lossy = seq<Byte> -> string

  ghost predicate KeepsAscii(lossy: Lossy) {
    forall text | IsAscii(text) :: lossy(Encode(text)) == text
  }

  /** The size of a chunk: trimmed, up to the first extension, hexadecimal. */
  function ChunkSize(lossy: Lossy, line: seq<Byte>): Option<nat> {
    ParseHex(Before(Trim(lossy(line)), ';'), TWO_TO_THE_64)
  }

  function SkipCrlf(rest: seq<Byte>): (r: seq<Byte>)
    ensures |r| <= |rest|
  {
    if CRLF <= rest then rest[2..] else rest
  }

  /** The decoder as a function of what is left of the body and what is joined so far. */
  function Unchunk(lossy: Lossy, rest: seq<Byte>, joined: seq<Byte>): ChunkOutcome
    decreases |rest|
  {
    match FindSubsequence(rest, CRLF)
    case None => Joined(joined)
    case Some(lineEnd) =>
      match ChunkSize(lossy, rest[..lineEnd])
      case None => BadChunkSize
      case Some(size) =>
        var start := lineEnd + 2;
        if size == 0 then Joined(joined)
        else if start + size >= TWO_TO_THE_64 then Overflow
        else if |rest| < start + size then TruncatedChunk
        else Unchunk(lossy, SkipCrlf(rest[start + size..]), joined + rest[start..start + size])
  }

  /** The loop over the chunks of a body. */
  method JoinChunks(lossy: Lossy, body: seq<Byte>) returns (outcome: ChunkOutcome)
    ensures outcome == Unchunk(lossy, body, [])
  {
    hide FindSubsequence, ChunkSize, OccursAt, SkipCrlf;
    ghost var goal := Unchunk(lossy, body, []);
    var joined := [];
    var rest := body;
    while true
      invariant Unchunk(lossy, rest, joined) == goal
      decreases |rest|
    {
      var lineEnd := FindSubsequence(rest, CRLF);
      if lineEnd.None? {
        break;
      }
      var size := ChunkSize(lossy, rest[..lineEnd.value]);
      if size.None? {
        return BadChunkSize;
      }
      if size.value == 0 {
        break;
      }
      var start := lineEnd.value + 2;
      if start + size.value >= TWO_TO_THE_64 {
        return Overflow;
      }
      if |rest| < start + size.value {
        return TruncatedChunk;
      }
      joined := joined + rest[start..start + size.value];
      rest := SkipCrlf(rest[start + size.value..]);
    }
    outcome := Joined(joined);
  }

  // ------------------------------------------------------------------ encodings

  /** A chunk as the reader takes it: a size line, possibly with extensions, its data, and the line end behind
      them, which the reader does not insist on. */
  datatype Chunk = Chunk(line: seq<Byte>, data: seq<Byte>, closed: bool)

  ghost predicate IsLine(line: seq<Byte>) {
    forall i: nat :: !OccursAt(line, CRLF, i)
  }

  ghost predicate IsChunk(lossy: Lossy, c: Chunk) {
    && IsLine(c.line) && ChunkSize(lossy, c.line) == Some(|c.data|) && c.data != []
    && |c.line| + 2 + |c.data| < TWO_TO_THE_64
  }

  function EncodeChunk(c: Chunk): seq<Byte> {
    c.line + CRLF + c.data + (if c.closed then CRLF else [])
  }

  function EncodeChunks(chunks: seq<Chunk>): seq<Byte> {
    if chunks == [] then [] else EncodeChunk(chunks[0]) + EncodeChunks(chunks[1..])
  }

  function Data(chunks: seq<Chunk>): seq<Byte> {
    if chunks == [] then [] else chunks[0].data + Data(chunks[1..])
  }

  /** The chunks in front of `end`. Data is only without its line end if none follows it. */
  ghost predicate AreChunks(lossy: Lossy, chunks: seq<Chunk>, end: seq<Byte>) {
    chunks == [] ||
    (&& IsChunk(lossy, chunks[0])
     && (chunks[0].closed || !(CRLF <= EncodeChunks(chunks[1..]) + end))
     && AreChunks(lossy, chunks[1..], end))
  }

  /** The body is these chunks, and `end`. */
  ghost predicate Splits(lossy: Lossy, body: seq<Byte>, chunks: seq<Chunk>, end: seq<Byte>) {
    AreChunks(lossy, chunks, end) && body == EncodeChunks(chunks) + end
  }

  /** What ends a body: a zero-size line with anything behind it, or, since the reader does not insist on the
      last chunk, anything without a line end. */
  predicate IsEnd(lossy: Lossy, end: seq<Byte>) {
    match FindSubsequence(end, CRLF)
    case None => true
    case Some(i) => ChunkSize(lossy, end[..i]) == Some(0)
  }

  /** A line that is no size. */
  predicate IsNoSize(lossy: Lossy, end: seq<Byte>) {
    match FindSubsequence(end, CRLF)
    case None => false
    case Some(i) => ChunkSize(lossy, end[..i]).None?
  }

  /** A size line whose data would end beyond the address range. */
  predicate IsTooLarge(lossy: Lossy, end: seq<Byte>) {
    match FindSubsequence(end, CRLF)
    case None => false
    case Some(i) =>
      match ChunkSize(lossy, end[..i])
      case None => false
      case Some(size) => size > 0 && i + 2 + size >= TWO_TO_THE_64
  }

  /** A size line with less data behind it. */
  predicate IsCutShort(lossy: Lossy, end: seq<Byte>) {
    match FindSubsequence(end, CRLF)
    case None => false
    case Some(i) =>
      match ChunkSize(lossy, end[..i])
      case None => false
      case Some(size) => size > 0 && |end| < i + 2 + size < TWO_TO_THE_64
  }

  /** What decoding comes to at an end that is no chunk. */
  function EndOutcome(lossy: Lossy, end: seq<Byte>, joined: seq<Byte>): Option<ChunkOutcome> {
    if IsEnd(lossy, end) then Some(Joined(joined))
    else if IsNoSize(lossy, end) then Some(BadChunkSize)
    else if IsTooLarge(lossy, end) then Some(Overflow)
    else if IsCutShort(lossy, end) then Some(TruncatedChunk)
    else None
  }

  /** The first line end of a text is the one behind its first line. */
  lemma LineFound(line: seq<Byte>, more: seq<Byte>)
    requires IsLine(line)
    ensures FindSubsequence(line + CRLF + more, CRLF) == Some(|line|)
  {
    var text := line + CRLF + more;
    assert text[|line|..|line| + 2] == CRLF;
    assert OccursAt(text, CRLF, |line|);
    forall j: nat | j < |line| ensures !OccursAt(text, CRLF, j) {
      if j + 2 <= |line| {
        assert text[j..j + 2] == line[j..j + 2];
        assert !OccursAt(line, CRLF, j);
      } else {
        assert text[j + 1] == 13;
        assert text[j..j + 2][1] == 13;
      }
    }
  }

  lemma ChunkParts(c: Chunk, later: seq<Byte>)
    ensures var (rest, start) := (EncodeChunk(c) + later, |c.line| + 2);
            && rest == c.line + CRLF + (c.data + ((if c.closed then CRLF else []) + later))
            && start + |c.data| <= |rest|
            && rest[..|c.line|] == c.line
            && rest[start..start + |c.data|] == c.data
            && rest[start + |c.data|..] == (if c.closed then CRLF else []) + later
  {
  }

  lemma AfterData(c: Chunk, later: seq<Byte>)
    requires c.closed || !(CRLF <= later)
    ensures SkipCrlf((if c.closed then CRLF else []) + later) == later
  {
  }

  /** One chunk in front is consumed whole. */
  lemma ChunkStep(lossy: Lossy, c: Chunk, later: seq<Byte>, joined: seq<Byte>)
    requires IsChunk(lossy, c) && (c.closed || !(CRLF <= later))
    ensures Unchunk(lossy, EncodeChunk(c) + later, joined) == Unchunk(lossy, later, joined + c.data)
  {
    hide ChunkSize, FindSubsequence, EncodeChunk, SkipCrlf;
    var rest := EncodeChunk(c) + later;
    var start := |c.line| + 2;
    ChunkParts(c, later);
    LineFound(c.line, c.data + ((if c.closed then CRLF else []) + later));
    AfterData(c, later);
    assert ChunkSize(lossy, rest[..|c.line|]) == Some(|c.data|);
  }

  lemma EncodeFirst(chunks: seq<Chunk>, end: seq<Byte>)
    requires chunks != []
    ensures EncodeChunks(chunks) + end == EncodeChunk(chunks[0]) + (EncodeChunks(chunks[1..]) + end)
  {
  }

  lemma EndStops(lossy: Lossy, end: seq<Byte>, joined: seq<Byte>)
    requires EndOutcome(lossy, end, joined).Some?
    ensures Some(Unchunk(lossy, end, joined)) == EndOutcome(lossy, end, joined)
  {
    hide ChunkSize, FindSubsequence;
  }

  /** Decoding a body of chunks gives the concatenation of their data, if the body ends with an end, and otherwise
      the error its end is. */
  lemma {:induction false} UnchunkEncoding(lossy: Lossy, chunks: seq<Chunk>, end: seq<Byte>, joined: seq<Byte>)
    requires AreChunks(lossy, chunks, end) && EndOutcome(lossy, end, joined).Some?
    ensures Some(Unchunk(lossy, EncodeChunks(chunks) + end, joined)) == EndOutcome(lossy, end, joined + Data(chunks))
    decreases |chunks|
  {
    hide Unchunk, IsChunk, EncodeChunk, IsEnd, IsNoSize, IsTooLarge, IsCutShort;
    if chunks == [] {
      assert EncodeChunks(chunks) + end == end && joined + Data(chunks) == joined;
      EndStops(lossy, end, joined);
    } else {
      var later := EncodeChunks(chunks[1..]) + end;
      EncodeFirst(chunks, end);
      ChunkStep(lossy, chunks[0], later, joined);
      UnchunkEncoding(lossy, chunks[1..], end, joined + chunks[0].data);
      assert (joined + chunks[0].data) + Data(chunks[1..]) == joined + (chunks[0].data + Data(chunks[1..]));
    }
  }

  /** The text before the first line end is a line. */
  lemma FirstLineIsLine(text: seq<Byte>, i: nat)
    requires FindSubsequence(text, CRLF) == Some(i)
    ensures i + 2 <= |text| && IsLine(text[..i]) && text == text[..i] + CRLF + text[i + 2..]
  {
    assert OccursAt(text, CRLF, i);
    forall j: nat ensures !OccursAt(text[..i], CRLF, j) {
      if OccursAt(text[..i], CRLF, j) {
        assert text[j..j + 2] == text[..i][j..j + 2];
        assert OccursAt(text, CRLF, j);
      }
    }
    assert text[i..i + 2] == CRLF;
  }

  /** A size line with its data behind it. */
  lemma SizeAndData(lossy: Lossy, body: seq<Byte>)
    requires EndOutcome(lossy, body, []).None?
    ensures var i := FindSubsequence(body, CRLF);
            i.Some? && var size := ChunkSize(lossy, body[..i.value]);
            && size.Some? && size.value > 0
            && i.value + 2 + size.value <= |body| && i.value + 2 + size.value < TWO_TO_THE_64
  {
    hide ChunkSize, FindSubsequence;
  }

  lemma CutInThree(body: seq<Byte>, i: nat, start: nat, end: nat)
    requires i <= start <= end <= |body| && body == body[..i] + CRLF + body[start..]
    ensures body == body[..i] + CRLF + (body[start..end] + body[end..])
  {
    assert body[start..] == body[start..end] + body[end..];
  }

  /** A body that goes on starts with a chunk. */
  lemma ChunkInFront(lossy: Lossy, body: seq<Byte>) returns (c: Chunk, later: seq<Byte>)
    requires EndOutcome(lossy, body, []).None?
    ensures IsChunk(lossy, c) && (c.closed || !(CRLF <= later))
    ensures body == EncodeChunk(c) + later && |later| < |body|
  {
    SizeAndData(lossy, body);
    hide ChunkSize, FindSubsequence, IsLine, EndOutcome, EncodeChunk, SkipCrlf;
    var i := FindSubsequence(body, CRLF).value;
    FirstLineIsLine(body, i);
    var (start, end) := (i + 2, i + 2 + ChunkSize(lossy, body[..i]).value);
    CutInThree(body, i, start, end);
    var rest := body[end..];
    c := Chunk(body[..i], body[start..end], CRLF <= rest);
    later := SkipCrlf(rest);
    Skipped(rest);
    ChunkJoined(c, later);
  }

  lemma Skipped(rest: seq<Byte>)
    ensures rest == (if CRLF <= rest then CRLF else []) + SkipCrlf(rest)
    ensures !(CRLF <= rest) ==> SkipCrlf(rest) == rest
  {
  }

  /** The data is followed by whatever the reader is left with. */
  lemma ChunkJoined(c: Chunk, later: seq<Byte>)
    ensures EncodeChunk(c) + later == c.line + CRLF + (c.data + ((if c.closed then CRLF else []) + later))
  {
  }

  /** Every body is chunks and something that is no chunk. */
  lemma {:induction false} SplitBody(lossy: Lossy, body: seq<Byte>) returns (chunks: seq<Chunk>, end: seq<Byte>)
    ensures Splits(lossy, body, chunks, end) && EndOutcome(lossy, end, []).Some?
    decreases |body|
  {
    hide IsChunk, EncodeChunk, IsEnd, IsNoSize, IsTooLarge, IsCutShort;
    if EndOutcome(lossy, body, []).Some? {
      chunks, end := [], body;
      assert EncodeChunks(chunks) + end == body;
    } else {
      var c, later := ChunkInFront(lossy, body);
      var more;
      more, end := SplitBody(lossy, later);
      chunks := [c] + more;
      assert chunks[1..] == more;
      EncodeFirst(chunks, end);
    }
  }

  lemma OutcomeOfSplit(lossy: Lossy, body: seq<Byte>, chunks: seq<Chunk>, end: seq<Byte>)
    requires Splits(lossy, body, chunks, end) && EndOutcome(lossy, end, []).Some?
    ensures Some(Unchunk(lossy, body, [])) == EndOutcome(lossy, end, Data(chunks))
  {
    hide Unchunk, AreChunks, EncodeChunks, IsEnd, IsNoSize, IsTooLarge, IsCutShort;
    UnchunkEncoding(lossy, chunks, end, []);
    assert [] + Data(chunks) == Data(chunks);
  }

  lemma EndsApart(lossy: Lossy, end: seq<Byte>)
    ensures IsEnd(lossy, end) ==> !IsNoSize(lossy, end) && !IsTooLarge(lossy, end) && !IsCutShort(lossy, end)
    ensures IsNoSize(lossy, end) ==> !IsTooLarge(lossy, end) && !IsCutShort(lossy, end)
    ensures IsTooLarge(lossy, end) ==> !IsCutShort(lossy, end)
  {
    hide FindSubsequence, ChunkSize;
  }

  /** Exactly which bodies are decoded, and to what, and exactly which are refused, and how: the decoder panics on
      the bodies in which, behind any number of chunks, a size line promises data beyond the address range. */
  lemma UnchunkExactly(lossy: Lossy, body: seq<Byte>)
    ensures forall b ::
              Unchunk(lossy, body, []) == Joined(b)
              <==> exists chunks, end :: Splits(lossy, body, chunks, end) && IsEnd(lossy, end) && Data(chunks) == b
    ensures Unchunk(lossy, body, []) == BadChunkSize
            <==> exists chunks, end :: Splits(lossy, body, chunks, end) && IsNoSize(lossy, end)
    ensures Unchunk(lossy, body, []) == Overflow
            <==> exists chunks, end :: Splits(lossy, body, chunks, end) && IsTooLarge(lossy, end)
    ensures Unchunk(lossy, body, []) == TruncatedChunk
            <==> exists chunks, end :: Splits(lossy, body, chunks, end) && IsCutShort(lossy, end)
  {
    hide Unchunk, Splits, IsEnd, IsNoSize, IsTooLarge, IsCutShort;
    var chunks, end := SplitBody(lossy, body);
    OutcomeOfSplit(lossy, body, chunks, end);
    forall chunks', end' | Splits(lossy, body, chunks', end') && EndOutcome(lossy, end', []).Some?
      ensures Some(Unchunk(lossy, body, [])) == EndOutcome(lossy, end', Data(chunks'))
    {
      OutcomeOfSplit(lossy, body, chunks', end');
    }
    forall end'
      ensures IsEnd(lossy, end') ==> !IsNoSize(lossy, end') && !IsTooLarge(lossy, end') && !IsCutShort(lossy, end')
      ensures IsNoSize(lossy, end') ==> !IsTooLarge(lossy, end') && !IsCutShort(lossy, end')
      ensures IsTooLarge(lossy, end') ==> !IsCutShort(lossy, end')
    {
      EndsApart(lossy, end');
    }
  }

  // ------------------------------------------------------------------ plain hexadecimal chunks

  /** What may stand behind the size: white space, or a semicolon and anything in ASCII on the same line. */
  predicate IsExtension(ext: string) {
    (IsBlank(ext) || ext[0] == ';') && IsAscii(ext) && forall i | 0 <= i < |ext| :: ext[i] as int != 13
  }

  /** A size in hexadecimal, and an extension. */
  function SizeLine(n: nat, ext: string): seq<Byte> {
    Encode(HexText(n) + ext)
  }

  lemma HexTextIsAscii(n: nat)
    ensures IsAscii(HexText(n)) && forall i | 0 <= i < |HexText(n)| :: HexText(n)[i] as int != 13
    ensures ';' !in HexText(n)
    ensures !IsWhitespace(HexText(n)[0]) && !IsWhitespace(HexText(n)[|HexText(n)| - 1])
  {
    hide HexText;
    HexTextParses(n);
    forall i | 0 <= i < |HexText(n)|
      ensures HexText(n)[i] as int < 128 && HexText(n)[i] as int != 13 && !IsWhitespace(HexText(n)[i])
    {
      assert HexText(n)[i] in HexText(n);
    }
  }

  /** Extensions are ignored, and so is white space at either end of the line. */
  lemma ExtensionIgnored(blank: string, digits: string, ext: string)
    requires IsBlank(blank) && digits != [] && ';' !in digits && (IsBlank(ext) || ext[0] == ';')
    requires !IsWhitespace(digits[0]) && !IsWhitespace(digits[|digits| - 1])
    ensures Before(Trim(blank + digits + ext), ';') == digits
  {
    hide IsWhitespace, Before;
    var text := digits + ext;
    TrimStartDrops(blank, text);
    assert blank + digits + ext == blank + text;
    TrimEndKeeps(digits, ext);
    var rest := TrimEnd(text)[|digits|..];
    assert TrimEnd(text) == digits + rest;
    if IsBlank(ext) {
      TrimEndDrops(digits, ext);
    } else {
      assert rest != [] ==> rest[0] == ext[0];
    }
    BeforeSeparator(digits, rest, ';');
  }

  lemma SizeLineSize(lossy: Lossy, n: nat, ext: string)
    requires KeepsAscii(lossy) && n < TWO_TO_THE_64 && IsExtension(ext)
    ensures ChunkSize(lossy, SizeLine(n, ext)) == Some(n)
  {
    hide HexText, Trim, Before, ParseHex, Encode, IsWhitespace;
    HexTextIsAscii(n);
    HexTextRoundTrip(n, TWO_TO_THE_64);
    assert lossy(SizeLine(n, ext)) == HexText(n) + ext;
    assert "" + HexText(n) + ext == HexText(n) + ext;
    ExtensionIgnored("", HexText(n), ext);
  }

  /** White space in front of the size, leading zeros and a plus sign do not matter, and a size beyond the address
      range is none. */
  lemma PaddedSize(lossy: Lossy, blank: string, n: nat, ext: string)
    requires KeepsAscii(lossy) && IsExtension(ext) && IsBlank(blank) && IsAscii(blank)
    ensures ChunkSize(lossy, Encode(blank + HexText(n) + ext)) == if n < TWO_TO_THE_64 then Some(n) else None
    ensures ChunkSize(lossy, Encode(blank + ("+" + HexText(n)) + ext)) == if n < TWO_TO_THE_64 then Some(n) else None
  {
    hide HexText, Trim, Before, ParseHex, Encode, IsWhitespace;
    HexTextIsAscii(n);
    HexTextParses(n);
    var digits := HexText(n);
    assert digits[0] in digits;
    ParseHexAccepts(digits, TWO_TO_THE_64);
    ParseHexOf(digits, TWO_TO_THE_64);
    PlusIsNoSpace();
    assert IsAscii(blank + digits + ext) && IsAscii(blank + ("+" + digits) + ext);
    ExtensionIgnored(blank, digits, ext);
    ExtensionIgnored(blank, "+" + digits, ext);
  }

  lemma ParseHexOf(digits: string, bound: nat)
    requires digits != [] && digits[0] != '+'
    ensures ParseHex(digits, bound)
         == match ParseDigits(digits) case None => None case Some(n) => if n < bound then Some(n) else None
  {
  }

  lemma PlusIsNoSpace()
    ensures !IsWhitespace('+')
  {
  }

  lemma SizeLineIsOneLine(n: nat, ext: string)
    requires IsExtension(ext)
    ensures IsLine(SizeLine(n, ext))
  {
    hide HexText, Encode;
    HexTextIsAscii(n);
    AsciiEncoding(HexText(n) + ext);
    NoLineEnd(SizeLine(n, ext));
  }

  lemma NoLineEnd(line: seq<Byte>)
    requires 13 !in line
    ensures IsLine(line)
  {
    forall i: nat ensures !OccursAt(line, CRLF, i) {
      if i + 2 <= |line| {
        assert line[i..i + 2][0] == line[i] && CRLF[0] == 13;
      }
    }
  }

  /** Data to be sent as one chunk, and the extension it is sent with. */
  datatype Block = Block(data: seq<Byte>, ext: string)

  /** The usual form of a block: its length in hexadecimal, its extension, and a line end behind the data. */
  function HexChunk(block: Block): Chunk {
    Chunk(SizeLine(|block.data|, block.ext), block.data, true)
  }

  lemma HexChunkIsChunk(lossy: Lossy, block: Block)
    requires KeepsAscii(lossy) && IsExtension(block.ext) && 0 < |block.data|
    requires |SizeLine(|block.data|, block.ext)| + 2 + |block.data| < TWO_TO_THE_64
    ensures IsChunk(lossy, HexChunk(block))
  {
    hide SizeLine, IsExtension;
    SizeLineSize(lossy, |block.data|, block.ext);
    SizeLineIsOneLine(|block.data|, block.ext);
  }

  function HexChunks(blocks: seq<Block>): (chunks: seq<Chunk>)
    ensures |chunks| == |blocks|
  {
    seq(|blocks|, i requires 0 <= i < |blocks| => HexChunk(blocks[i]))
  }

  function Concat(blocks: seq<Block>): seq<Byte> {
    if blocks == [] then [] else blocks[0].data + Concat(blocks[1..])
  }

  lemma {:induction false} DataOfHexChunks(blocks: seq<Block>)
    ensures Data(HexChunks(blocks)) == Concat(blocks)
  {
    if blocks != [] {
      DataOfHexChunks(blocks[1..]);
      assert HexChunks(blocks)[1..] == HexChunks(blocks[1..]);
    }
  }

  /** A size line of zero and whatever follows it. */
  function LastChunk(ext: string, trailer: seq<Byte>): seq<Byte> {
    SizeLine(0, ext) + CRLF + trailer
  }

  lemma {:induction false} HexChunksAreChunks(lossy: Lossy, blocks: seq<Block>, end: seq<Byte>)
    requires KeepsAscii(lossy)
    requires forall i | 0 <= i < |blocks| :: blocks[i].data != [] && IsExtension(blocks[i].ext)
    requires |EncodeChunks(HexChunks(blocks))| < TWO_TO_THE_64
    ensures AreChunks(lossy, HexChunks(blocks), end)
  {
    hide IsChunk, SizeLine, IsExtension;
    if blocks != [] {
      assert HexChunks(blocks)[1..] == HexChunks(blocks[1..]);
      var size := |blocks[0].data|;
      assert |EncodeChunk(HexChunk(blocks[0]))| == |SizeLine(size, blocks[0].ext)| + 2 + size + 2;
      HexChunkIsChunk(lossy, blocks[0]);
      HexChunksAreChunks(lossy, blocks[1..], end);
    }
  }

  /** The round trip for the usual encoding: hexadecimal sizes with extensions and a last chunk of size zero. */
  lemma HexChunksRoundTrip(lossy: Lossy, blocks: seq<Block>, ext: string, trailer: seq<Byte>)
    requires KeepsAscii(lossy) && IsExtension(ext)
    requires forall i | 0 <= i < |blocks| :: blocks[i].data != [] && IsExtension(blocks[i].ext)
    requires |EncodeChunks(HexChunks(blocks)) + LastChunk(ext, trailer)| < TWO_TO_THE_64
    ensures Unchunk(lossy, EncodeChunks(HexChunks(blocks)) + LastChunk(ext, trailer), []) == Joined(Concat(blocks))
  {
    hide Unchunk, AreChunks, IsEnd, EncodeChunk, HexChunk, LastChunk, IsExtension;
    HexChunksAreChunks(lossy, blocks, LastChunk(ext, trailer));
    ZeroEnds(lossy, ext, trailer);
    UnchunkEncoding(lossy, HexChunks(blocks), LastChunk(ext, trailer), []);
    DataOfHexChunks(blocks);
  }

  /** The first line of a text that starts with a size line. */
  lemma SizeLineFound(lossy: Lossy, n: nat, ext: string, more: seq<Byte>)
    requires KeepsAscii(lossy) && n < TWO_TO_THE_64 && IsExtension(ext)
    ensures var (line, text) := (SizeLine(n, ext), SizeLine(n, ext) + CRLF + more);
            && FindSubsequence(text, CRLF) == Some(|line|)
            && text[..|line|] == line && ChunkSize(lossy, line) == Some(n)
  {
    hide SizeLine, IsExtension, ChunkSize, FindSubsequence;
    SizeLineIsOneLine(n, ext);
    LineFound(SizeLine(n, ext), more);
    SizeLineSize(lossy, n, ext);
  }

  lemma ZeroEnds(lossy: Lossy, ext: string, trailer: seq<Byte>)
    requires KeepsAscii(lossy) && IsExtension(ext)
    ensures IsEnd(lossy, LastChunk(ext, trailer))
  {
    hide SizeLine, IsExtension, ChunkSize, FindSubsequence;
    SizeLineFound(lossy, 0, ext, trailer);
  }

  /** The panic is reached: any body that goes on, behind any chunks, with a size line too large for the address
      range panics, and the largest sizes that can be parsed are too large wherever they stand. */
  lemma OverflowReached(lossy: Lossy, chunks: seq<Chunk>, n: nat, ext: string, more: seq<Byte>)
    requires KeepsAscii(lossy) && IsExtension(ext) && TWO_TO_THE_64 - 3 <= n < TWO_TO_THE_64
    requires AreChunks(lossy, chunks, SizeLine(n, ext) + CRLF + more)
    ensures Unchunk(lossy, EncodeChunks(chunks) + (SizeLine(n, ext) + CRLF + more), []) == Overflow
  {
    hide Unchunk, AreChunks, EncodeChunks, SizeLine, IsExtension, ChunkSize, FindSubsequence;
    var end := SizeLine(n, ext) + CRLF + more;
    SizeLineFound(lossy, n, ext, more);
    SizeLineNotEmpty(n, ext);
    assert IsTooLarge(lossy, end);
    EndsApart(lossy, end);
    OutcomeOfSplit(lossy, EncodeChunks(chunks) + end, chunks, end);
  }

  lemma SizeLineNotEmpty(n: nat, ext: string)
    ensures |SizeLine(n, ext)| >= 1
  {
  }

  /** A reply whose whole body is one such line. */
  lemma OverflowAtOnce(lossy: Lossy, more: seq<Byte>)
    requires KeepsAscii(lossy)
    ensures Unchunk(lossy, SizeLine(TWO_TO_THE_64 - 1, "") + CRLF + more, []) == Overflow
  {
    hide Unchunk, SizeLine;
    var end := SizeLine(TWO_TO_THE_64 - 1, "") + CRLF + more;
    assert EncodeChunks([]) + end == end;
    OverflowReached(lossy, [], TWO_TO_THE_64 - 1, "", more);
  }
}
