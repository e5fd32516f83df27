/** The journal: a file of bytes, one JSON record a line, and what replaying it accepts. */
module Journal {
  import opened Bits
  import opened Digests
  import opened Records
  import opened Text

  const LF: Byte := 10
  const CR: Byte := 13

  // ------------------------------------------------------------------ lines of a file

  /** The position of the first line feed, or the length of the text. */
  function LineEnd(text: seq<Byte>): (i: nat)
    ensures i <= |text| && LF !in text[..i]
    ensures i < |text| ==> text[i] == LF
  {
    if text == [] || text[0] == LF then 0
    else
      var i := LineEnd(text[1..]);
      assert text[..i + 1] == [text[0]] + text[1..][..i];
      i + 1
  }

  function StripCr(line: seq<Byte>): seq<Byte> {
    if line != [] && line[|line| - 1] == CR then line[..|line| - 1] else line
  }

  /** The first line of a non-empty text as `BufRead::lines` yields it: a carriage return before the line
      feed goes too, and an unterminated last line is a line. */
  function FirstLine(text: seq<Byte>): seq<Byte>
    requires text != []
  {
    var i := LineEnd(text);
    if i < |text| then StripCr(text[..i]) else text
  }

  function AfterFirstLine(text: seq<Byte>): (rest: seq<Byte>)
    requires text != []
    ensures |rest| < |text|
  {
    var i := LineEnd(text);
    if i < |text| then text[i + 1..] else []
  }

  function Lines(text: seq<Byte>): (lines: seq<seq<Byte>>)
    ensures |lines| <= |text|
    decreases |text|
  {
    if text == [] then [] else [FirstLine(text)] + Lines(AfterFirstLine(text))
  }

  predicate Terminated(file: seq<Byte>) {
    file == [] || file[|file| - 1] == LF
  }

  // ------------------------------------------------------------------ one line

  /** The text layer under the journal: UTF-8 decoding and JSON text. */
  datatype Codec = Codec(
    formats: Formats,
    decodeUtf8: seq<Byte> -> Option<string>,
    printJson: Json -> seq<Byte>,
    parseJson: string -> Result<Json, string>)

  datatype LineKind = Unreadable | Parsed(record: CommitRecord) | BlankLine(why: string) | Garbled(why: string)

  function ParseText(k: Codec, text: string): Result<CommitRecord, string> {
    match k.parseJson(text)
    case Err(e) => Err(e)
    case Ok(v) => FromJson(k.formats, v)
  }

  function Classify(k: Codec, line: seq<Byte>): LineKind {
    match k.decodeUtf8(line)
    case None => Unreadable
    case Some(text) =>
      match ParseText(k, text)
      case Ok(record) => Parsed(record)
      case Err(e) => if IsBlank(text) then BlankLine(e) else Garbled(e)
  }

  function RecordLine(k: Codec, r: CommitRecord): seq<Byte> {
    k.printJson(ToJson(k.formats, r))
  }

  /** What the text layer is relied on for, record line by record line: a printed record stays on one line
      and reads back as the JSON value that was printed. */
  ghost predicate Faithful(k: Codec) {
    && k.formats.RoundTrip()
    && forall r :: FaithfulLine(k, r)
  }

  ghost predicate FaithfulLine(k: Codec, r: CommitRecord) {
    var line := RecordLine(k, r);
    && LF !in line && line != [] && line[|line| - 1] != CR
    && k.decodeUtf8(line).Some? && k.parseJson(k.decodeUtf8(line).value) == Ok(ToJson(k.formats, r))
  }

  /** A property of JSON text: a record printed behind anything but white space is no record. */
  ghost predicate NoGluedRecords(k: Codec) {
    forall t, r | t != [] && !Classify(k, t).BlankLine? :: !Classify(k, t + RecordLine(k, r)).Parsed?
  }

  lemma RecordLineParses(k: Codec, r: CommitRecord)
    requires Faithful(k)
    ensures Classify(k, RecordLine(k, r)) == Parsed(r)
    ensures LF !in RecordLine(k, r) && StripCr(RecordLine(k, r)) == RecordLine(k, r) != []
  {
    assert FaithfulLine(k, r);
    RecordRoundTrip(k.formats, r);
  }

  // ------------------------------------------------------------------ replay

  datatype StoreError =
    | ReadError
    | OutOfSequence(lineNo: nat, found: U64, expected: nat)
    | BadLine(lineNo: nat, why: string)
    | WriteFailed

  /** The replay of the remaining lines on top of the entries read so far, line by line with one line of
      lookahead: a read error on the next line comes before anything the current line has to say. */
  function ReplayLines(k: Codec, lines: seq<seq<Byte>>, entries: seq<CommitRecord>, lineNo: nat)
    : Result<seq<CommitRecord>, StoreError>
    decreases |lines|
  {
    if lines == [] then Ok(entries)
    else if Classify(k, lines[0]).Unreadable? || (|lines| > 1 && Classify(k, lines[1]).Unreadable?) then Err(ReadError)
    else
      match Classify(k, lines[0])
      case Parsed(r) =>
        if r.seqNo != |entries| then Err(OutOfSequence(lineNo + 1, r.seqNo, |entries|))
        else ReplayLines(k, lines[1..], entries + [r], lineNo + 1)
      case Garbled(e) => if |lines| == 1 then Ok(entries) else Err(BadLine(lineNo + 1, e))
      case BlankLine(e) => Err(BadLine(lineNo + 1, e))
      case Unreadable => Err(ReadError)
  }

  function Replay(k: Codec, file: seq<Byte>): Result<seq<CommitRecord>, StoreError> {
    ReplayLines(k, Lines(file), [], 0)
  }

  /** Line `i` is the record with sequence number `i`. */
  predicate Holds(k: Codec, line: seq<Byte>, i: nat) {
    var kind := Classify(k, line);
    kind.Parsed? && kind.record.seqNo == i
  }

  /** Lines that all hold the record of their position, `from` being the position of the first. */
  predicate AllHold(k: Codec, lines: seq<seq<Byte>>, from: nat) {
    forall i | 0 <= i < |lines| :: Holds(k, lines[i], from + i)
  }

  function RecordsOf(k: Codec, lines: seq<seq<Byte>>, from: nat): (r: seq<CommitRecord>)
    requires AllHold(k, lines, from)
    ensures |r| == |lines|
  {
    seq(|lines|, i requires 0 <= i < |lines| => Classify(k, lines[i]).record)
  }

  /** The lines before a torn last line, or all of them. */
  function WholeLines(k: Codec, lines: seq<seq<Byte>>): (whole: seq<seq<Byte>>)
    ensures whole == lines || (lines != [] && whole == lines[..|lines| - 1])
  {
    if lines != [] && Classify(k, lines[|lines| - 1]).Garbled? then lines[..|lines| - 1] else lines
  }

  lemma AllHoldFirst(k: Codec, lines: seq<seq<Byte>>, from: nat)
    requires lines != []
    ensures AllHold(k, lines, from) ==> Holds(k, lines[0], from)
    ensures AllHold(k, lines, from) && |lines| > 1 ==> Holds(k, lines[1], from + 1)
  {
  }

  lemma WholeLinesCons(k: Codec, lines: seq<seq<Byte>>)
    requires |lines| > 1
    ensures WholeLines(k, lines) == [lines[0]] + WholeLines(k, lines[1..])
  {
  }

  lemma ReplayNoLine(k: Codec, entries: seq<CommitRecord>, lineNo: nat)
    ensures ReplayLines(k, [], entries, lineNo) == Ok(entries)
    ensures AllHold(k, WholeLines(k, []), |entries|) && RecordsOf(k, WholeLines(k, []), |entries|) == []
  {
  }

  lemma ReplayOneLine(k: Codec, line: seq<Byte>, entries: seq<CommitRecord>, lineNo: nat)
    ensures var (lines, r) := ([line], ReplayLines(k, [line], entries, lineNo));
            && (r.Ok? <==> AllHold(k, WholeLines(k, lines), |entries|))
            && (r.Ok? ==> r.value == entries + RecordsOf(k, WholeLines(k, lines), |entries|))
  {
    hide Classify;
    var lines := [line];
    assert lines[1..] == [] && lines[..0] == [];
    AllHoldFirst(k, lines, |entries|);
    if Holds(k, line, |entries|) {
      assert RecordsOf(k, lines, |entries|) == [Classify(k, line).record];
    }
  }

  /** A line before the last one is passed if and only if it holds its record and the next line can be read. */
  lemma ReplayStep(k: Codec, lines: seq<seq<Byte>>, entries: seq<CommitRecord>, lineNo: nat)
    requires |lines| > 1
    ensures var r := ReplayLines(k, lines, entries, lineNo);
            if Holds(k, lines[0], |entries|) && !Classify(k, lines[1]).Unreadable?
            then r == ReplayLines(k, lines[1..], entries + [Classify(k, lines[0]).record], lineNo + 1)
            else r.Err?
  {
    hide Classify;
  }

  /** A line that is not passed is among the whole lines. */
  lemma NotPassed(k: Codec, lines: seq<seq<Byte>>, from: nat)
    requires |lines| > 1 && (!Holds(k, lines[0], from) || Classify(k, lines[1]).Unreadable?)
    ensures !AllHold(k, WholeLines(k, lines), from)
  {
    hide Classify;
    WholeLinesCons(k, lines);
    AllHoldFirst(k, WholeLines(k, lines), from);
    if Classify(k, lines[1]).Unreadable? {
      assert WholeLines(k, lines)[1] == lines[1];
    }
  }

  lemma {:induction false} ReplayLinesExact(k: Codec, lines: seq<seq<Byte>>, entries: seq<CommitRecord>, lineNo: nat)
    ensures ReplayLines(k, lines, entries, lineNo).Ok? <==> AllHold(k, WholeLines(k, lines), |entries|)
    ensures ReplayLines(k, lines, entries, lineNo).Ok? ==>
              ReplayLines(k, lines, entries, lineNo).value == entries + RecordsOf(k, WholeLines(k, lines), |entries|)
    decreases |lines|
  {
    hide Classify, ReplayLines, WholeLines, AllHold, RecordsOf;
    if lines == [] {
      ReplayNoLine(k, entries, lineNo);
      return;
    }
    if |lines| == 1 {
      assert lines == [lines[0]];
      ReplayOneLine(k, lines[0], entries, lineNo);
      return;
    }
    ReplayStep(k, lines, entries, lineNo);
    if Holds(k, lines[0], |entries|) && !Classify(k, lines[1]).Unreadable? {
      var record := Classify(k, lines[0]).record;
      ReplayLinesExact(k, lines[1..], entries + [record], lineNo + 1);
      WholeLinesCons(k, lines);
      HoldCons(k, lines[0], WholeLines(k, lines[1..]), |entries|);
    } else {
      NotPassed(k, lines, |entries|);
    }
  }

  lemma HoldCons(k: Codec, line: seq<Byte>, rest: seq<seq<Byte>>, from: nat)
    requires Holds(k, line, from)
    ensures AllHold(k, [line] + rest, from) <==> AllHold(k, rest, from + 1)
    ensures AllHold(k, rest, from + 1) ==>
              RecordsOf(k, [line] + rest, from) == [Classify(k, line).record] + RecordsOf(k, rest, from + 1)
  {
    hide Holds;
    var all := [line] + rest;
    if AllHold(k, all, from) {
      forall i | 0 <= i < |rest| ensures Holds(k, rest[i], from + 1 + i) {
        assert Holds(k, all[i + 1], from + (i + 1));
      }
    }
    if AllHold(k, rest, from + 1) {
      forall i | 0 <= i < |all| ensures Holds(k, all[i], from + i) {
        if i > 0 {
          assert Holds(k, rest[i - 1], from + 1 + (i - 1));
        }
      }
    }
  }

  /** What stops the replay at line `i`: the next line cannot be read, or this one is out of sequence, blank, or garbled
      with another line behind it. Lines are numbered from one. */
  function StoppedAt(k: Codec, lines: seq<seq<Byte>>, i: nat): Option<StoreError>
    requires i < |lines|
  {
    if Classify(k, lines[i]).Unreadable? || (i + 1 < |lines| && Classify(k, lines[i + 1]).Unreadable?) then
      Some(ReadError)
    else
      match Classify(k, lines[i])
      case Parsed(r) => if r.seqNo == i then None else Some(OutOfSequence(i + 1, r.seqNo, i))
      case BlankLine(why) => Some(BadLine(i + 1, why))
      case Garbled(why) => if i + 1 == |lines| then None else Some(BadLine(i + 1, why))
      case Unreadable => Some(ReadError)
  }

  /** Line `i` is the first, from line `m` on, that stops the replay. */
  ghost predicate FirstStop(k: Codec, lines: seq<seq<Byte>>, m: nat, i: nat, e: StoreError) {
    && m <= i < |lines| && StoppedAt(k, lines, i) == Some(e)
    && forall j | m <= j < i :: StoppedAt(k, lines, j).None?
  }

  lemma LineDecides(k: Codec, lines: seq<seq<Byte>>, m: nat, entries: seq<CommitRecord>)
    requires m == |entries| < |lines|
    ensures var (stop, r) := (StoppedAt(k, lines, m), ReplayLines(k, lines[m..], entries, m));
            && (stop.Some? ==> r == Err(stop.value))
            && (stop.None? && Classify(k, lines[m]).Parsed? ==>
                r == ReplayLines(k, lines[m + 1..], entries + [Classify(k, lines[m]).record], m + 1))
            && (stop.None? && !Classify(k, lines[m]).Parsed? ==> r == Ok(entries) && m + 1 == |lines|)
  {
    hide Classify;
    var rest := lines[m..];
    assert rest[0] == lines[m] && rest[1..] == lines[m + 1..] && (|rest| > 1 ==> rest[1] == lines[m + 1]);
  }

  lemma {:induction false} ReplayLinesError(
    k: Codec, lines: seq<seq<Byte>>, m: nat, entries: seq<CommitRecord>, e: StoreError)
    requires m == |entries| <= |lines|
    ensures ReplayLines(k, lines[m..], entries, m) == Err(e) <==> exists i: nat :: FirstStop(k, lines, m, i, e)
    decreases |lines| - m
  {
    if m == |lines| {
      return;
    }
    LineDecides(k, lines, m, entries);
    hide Classify, ReplayLines, StoppedAt;
    var stop := StoppedAt(k, lines, m);
    if stop.Some? {
      assert stop == Some(e) ==> FirstStop(k, lines, m, m, e);
    } else {
      var next := m + 1;
      StopsLater(k, lines, m, next, e);
      if Classify(k, lines[m]).Parsed? {
        ReplayLinesError(k, lines, next, entries + [Classify(k, lines[m]).record], e);
      }
    }
  }

  /** Behind a line that does not stop the replay. */
  lemma StopsLater(k: Codec, lines: seq<seq<Byte>>, m: nat, next: nat, e: StoreError)
    requires m < |lines| && next == m + 1 && StoppedAt(k, lines, m).None?
    ensures (exists i: nat :: FirstStop(k, lines, m, i, e)) <==> exists i: nat :: FirstStop(k, lines, next, i, e)
    ensures next == |lines| ==> !exists i: nat :: FirstStop(k, lines, m, i, e)
  {
    hide StoppedAt;
    forall i: nat ensures FirstStop(k, lines, m, i, e) <==> FirstStop(k, lines, next, i, e) {
    }
  }

  /** Exact errors: a journal is refused with an error if and only if that is what stops the replay at the first line
      that stops it. */
  lemma ReplayErrorExactly(k: Codec, file: seq<Byte>, e: StoreError)
    ensures Replay(k, file) == Err(e) <==> exists i: nat :: FirstStop(k, Lines(file), 0, i, e)
  {
    assert Lines(file)[0..] == Lines(file);
    ReplayLinesError(k, Lines(file), 0, [], e);
  }

  /** Exact acceptance: a journal is replayed if and only if every line but a torn last one holds the
      record of its position, and then the entries are exactly those records. A line is torn when it is
      readable, not blank, and no record. */
  lemma ReplayExact(k: Codec, file: seq<Byte>)
    ensures Replay(k, file).Ok? <==> AllHold(k, WholeLines(k, Lines(file)), 0)
    ensures Replay(k, file).Ok? ==>
              && Replay(k, file).value == RecordsOf(k, WholeLines(k, Lines(file)), 0)
              && InSequence(Replay(k, file).value)
  {
    ReplayLinesExact(k, Lines(file), [], 0);
    if Replay(k, file).Ok? {
      var records := RecordsOf(k, WholeLines(k, Lines(file)), 0);
      forall i | 0 <= i < |records| ensures records[i].seqNo == i {
        assert Holds(k, WholeLines(k, Lines(file))[i], 0 + i);
      }
    }
  }
}
