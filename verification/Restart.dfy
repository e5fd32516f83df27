/** What a restart reads back: clean journals, torn tails, failed writes, and whole runs. */
module Restart {
  import opened Bits
  import opened Digests
  import opened Records
  import opened Text
  import opened Journal

  // ------------------------------------------------------------------ lines of longer files

  lemma {:induction false} LineEndConcat(a: seq<Byte>, b: seq<Byte>)
    ensures LineEnd(a + b) == if LineEnd(a) < |a| then LineEnd(a) else |a| + LineEnd(b)
    decreases |a|
  {
    if a == [] {
      assert a + b == b;
    } else if a[0] != LF {
      assert (a + b)[1..] == a[1..] + b;
      LineEndConcat(a[1..], b);
    }
  }

  lemma {:induction false} LineEndWithout(a: seq<Byte>)
    ensures LF !in a ==> LineEnd(a) == |a|
  {
  }

  lemma PrefixKept(a: seq<Byte>, b: seq<Byte>, i: nat)
    requires i < |a|
    ensures (a + b)[..i] == a[..i] && (a + b)[i + 1..] == a[i + 1..] + b
  {
  }

  /** A file whose first line is terminated keeps it, whatever is written behind. */
  lemma FirstLineStays(a: seq<Byte>, b: seq<Byte>)
    requires LineEnd(a) < |a|
    ensures FirstLine(a + b) == FirstLine(a) && AfterFirstLine(a + b) == AfterFirstLine(a) + b
  {
    hide LineEnd;
    LineEndConcat(a, b);
    PrefixKept(a, b, LineEnd(a));
  }

  lemma TerminatedHasLine(file: seq<Byte>)
    requires Terminated(file) && file != []
    ensures LineEnd(file) < |file| && Terminated(AfterFirstLine(file))
  {
  }

  /** Behind a terminated file, text is read as if it stood alone. */
  lemma {:induction false} LinesConcat(file: seq<Byte>, text: seq<Byte>)
    requires Terminated(file)
    ensures Lines(file + text) == Lines(file) + Lines(text)
    decreases |file|
  {
    if file == [] {
      assert file + text == text;
    } else {
      TerminatedHasLine(file);
      FirstLineStays(file, text);
      LinesConcat(AfterFirstLine(file), text);
    }
  }

  /** A line without a line feed, written with or without its terminator, is one line. */
  lemma OneLine(line: seq<Byte>)
    requires LF !in line && line != []
    ensures Lines(line) == [line]
    ensures Lines(line + [LF]) == [StripCr(line)]
  {
    LineEndWithout(line);
    LineEndConcat(line, [LF]);
    var text := line + [LF];
    assert text[..|line|] == line && text[|line| + 1..] == [];
    assert Lines([]) == [];
  }

  /** A line of text and how it is ended: by a line feed, or by a carriage return and a line feed. */
  datatype EndedLine = EndedLine(line: seq<Byte>, cr: bool)
  {
    predicate Valid() {
      LF !in line && (cr || line == [] || line[|line| - 1] != CR)
    }

    function Bytes(): seq<Byte> {
      line + (if cr then [CR, LF] else [LF])
    }
  }

  function JoinLines(lines: seq<EndedLine>): seq<Byte> {
    if lines == [] then [] else lines[0].Bytes() + JoinLines(lines[1..])
  }

  function LinesOf(lines: seq<EndedLine>): seq<seq<Byte>> {
    if lines == [] then [] else [lines[0].line] + LinesOf(lines[1..])
  }

  lemma FirstLineOf(l: EndedLine, rest: seq<Byte>)
    requires l.Valid()
    ensures var text := l.Bytes() + rest; FirstLine(text) == l.line && AfterFirstLine(text) == rest
  {
    var body := if l.cr then l.line + [CR] else l.line;
    var text := l.Bytes() + rest;
    assert text == body + ([LF] + rest);
    LineEndWithout(body);
    LineEndConcat(body, [LF] + rest);
    assert text[..|body|] == body && text[|body| + 1..] == rest;
    assert StripCr(body) == l.line;
  }

  /** What the lines of a text are: what was written, line by line, without the line ends, a carriage return before the
      line feed included, and then what is left at the end without one. */
  lemma {:induction false} LinesExactly(lines: seq<EndedLine>, last: seq<Byte>)
    requires (forall i | 0 <= i < |lines| :: lines[i].Valid()) && LF !in last
    ensures Lines(JoinLines(lines) + last) == LinesOf(lines) + (if last == [] then [] else [last])
  {
    hide FirstLine, AfterFirstLine, EndedLine.Bytes, EndedLine.Valid;
    if lines == [] {
      assert JoinLines(lines) + last == last;
      if last != [] {
        OneLine(last);
      }
    } else {
      var rest := JoinLines(lines[1..]) + last;
      assert JoinLines(lines) + last == lines[0].Bytes() + rest;
      FirstLineOf(lines[0], rest);
      LinesExactly(lines[1..], last);
      SomeBytes(lines[0], rest);
    }
  }

  lemma SomeBytes(l: EndedLine, rest: seq<Byte>)
    ensures l.Bytes() + rest != []
  {
  }

  /** The last, unterminated line of a file; empty if the file is terminated. */
  function {:induction false} Tail(file: seq<Byte>): (t: seq<Byte>)
    ensures |t| <= |file| && t == file[|file| - |t|..] && LF !in t && Terminated(file[..|file| - |t|])
    ensures t == [] <==> Terminated(file)
  {
    if file == [] || file[|file| - 1] == LF then []
    else
      var init := file[..|file| - 1];
      var t := Tail(init);
      assert file == init + [file[|file| - 1]];
      assert file[..|file| - |t| - 1] == init[..|init| - |t|];
      t + [file[|file| - 1]]
  }

  function Head(file: seq<Byte>): (hd: seq<Byte>)
    ensures Terminated(hd) && file == hd + Tail(file)
  {
    file[..|file| - |Tail(file)|]
  }

  lemma LinesHeadTail(file: seq<Byte>)
    ensures Lines(file) == Lines(Head(file)) + (if Tail(file) == [] then [] else [Tail(file)])
  {
    LinesConcat(Head(file), Tail(file));
    if Tail(file) != [] {
      OneLine(Tail(file));
    }
  }

  // ------------------------------------------------------------------ clean journals

  /** Newline-terminated well-formed record lines in sequence. */
  predicate Clean(k: Codec, file: seq<Byte>) {
    Terminated(file) && AllHold(k, Lines(file), 0)
  }

  /** What one successful append writes. */
  function Written(k: Codec, r: CommitRecord): seq<Byte> {
    RecordLine(k, r) + [LF]
  }

  /** The records of a clean journal. */
  function Entries(k: Codec, file: seq<Byte>): (r: seq<CommitRecord>)
    requires Clean(k, file)
    ensures |r| == |Lines(file)|
  {
    RecordsOf(k, Lines(file), 0)
  }

  lemma CleanReplays(k: Codec, file: seq<Byte>)
    requires Clean(k, file)
    ensures Replay(k, file) == Ok(Entries(k, file))
  {
    ReplayExact(k, file);
    LastHolds(k, Lines(file), 0);
  }

  lemma LastHolds(k: Codec, lines: seq<seq<Byte>>, from: nat)
    requires AllHold(k, lines, from)
    ensures WholeLines(k, lines) == lines
  {
  }

  /** A replayed journal is clean exactly if it is terminated and its last line is a record. */
  lemma CleanExactly(k: Codec, file: seq<Byte>)
    requires Replay(k, file).Ok?
    ensures var lines := Lines(file);
            Clean(k, file) <==> Terminated(file) && (lines == [] || Classify(k, lines[|lines| - 1]).Parsed?)
  {
    ReplayExact(k, file);
    var lines := Lines(file);
    if AllHold(k, lines, 0) && lines != [] {
      assert Holds(k, lines[|lines| - 1], 0 + (|lines| - 1));
    }
  }

  lemma HoldSnoc(k: Codec, lines: seq<seq<Byte>>, line: seq<Byte>)
    ensures AllHold(k, lines + [line], 0) <==> AllHold(k, lines, 0) && Holds(k, line, |lines|)
    ensures AllHold(k, lines + [line], 0) ==>
              RecordsOf(k, lines + [line], 0) == RecordsOf(k, lines, 0) + [Classify(k, line).record]
  {
    var all := lines + [line];
    if AllHold(k, all, 0) {
      assert Holds(k, all[|lines|], 0 + |lines|);
      forall i | 0 <= i < |lines| ensures Holds(k, lines[i], 0 + i) {
        assert Holds(k, all[i], 0 + i);
      }
    }
    if AllHold(k, lines, 0) && Holds(k, line, |lines|) {
      forall i | 0 <= i < |all| ensures Holds(k, all[i], 0 + i) {
        if i < |lines| {
          assert Holds(k, lines[i], 0 + i);
        }
      }
    }
  }

  lemma WrittenLines(k: Codec, file: seq<Byte>, r: CommitRecord)
    requires Faithful(k)
    ensures Lines(file + Written(k, r)) == Lines(Head(file)) + [Tail(file) + RecordLine(k, r)]
  {
    hide Lines, Classify, RecordLine, Tail, Head, Terminated, StripCr, Faithful;
    LineOfRecord(k, r);
    var (hd, tail, line) := (Head(file), Tail(file), RecordLine(k, r));
    var last := tail + line;
    Regroup(hd, tail, line);
    assert file == hd + tail;
    LinesConcat(hd, last + [LF]);
    OneLine(last);
  }

  lemma Regroup(a: seq<Byte>, b: seq<Byte>, c: seq<Byte>)
    ensures (a + b) + (c + [LF]) == a + ((b + c) + [LF])
  {
  }

  /** The line feed behind a record is the only one, and no carriage return goes with it. */
  lemma LineOfRecord(k: Codec, r: CommitRecord)
    requires Faithful(k)
    ensures RecordLine(k, r) != [] && LF !in RecordLine(k, r)
    ensures forall t :: StripCr(t + RecordLine(k, r)) == t + RecordLine(k, r)
    ensures Holds(k, RecordLine(k, r), r.seqNo) && Classify(k, RecordLine(k, r)) == Parsed(r)
  {
    assert FaithfulLine(k, r);
    RecordLineParses(k, r);
  }

  /** The record becomes the last line of a terminated file. */
  lemma WrittenLast(k: Codec, file: seq<Byte>, r: CommitRecord)
    requires Faithful(k) && Terminated(file)
    ensures Lines(file + Written(k, r)) == Lines(file) + [RecordLine(k, r)]
    ensures Terminated(file + Written(k, r))
  {
    hide Lines, RecordLine;
    WrittenLines(k, file, r);
    assert Tail(file) + RecordLine(k, r) == RecordLine(k, r) && Head(file) == file;
  }

  /** Appending to a clean journal keeps it clean and adds exactly the new record. */
  lemma AppendKeepsClean(k: Codec, file: seq<Byte>, r: CommitRecord)
    requires Faithful(k) && Clean(k, file) && r.seqNo == |Lines(file)|
    ensures Clean(k, file + Written(k, r))
    ensures Entries(k, file + Written(k, r)) == Entries(k, file) + [r]
  {
    hide Lines, RecordLine, Holds, AllHold, Written, Classify, Terminated;
    WrittenLast(k, file, r);
    LineOfRecord(k, r);
    HoldSnoc(k, Lines(file), RecordLine(k, r));
  }

  // ------------------------------------------------------------------ torn tails

  /** One start after a torn write: an unterminated, readable, non-blank tail that is no record is
      ignored, and exactly the records before it are kept. */
  lemma TornTailTolerated(k: Codec, file: seq<Byte>, t: seq<Byte>)
    requires Clean(k, file) && t != [] && LF !in t && Classify(k, t).Garbled?
    ensures Replay(k, file + t) == Replay(k, file)
  {
    hide Lines, Classify;
    LinesConcat(file, t);
    OneLine(t);
    CleanReplays(k, file);
    ReplayExact(k, file + t);
    assert (Lines(file) + [t])[..|Lines(file)|] == Lines(file);
    assert WholeLines(k, Lines(file) + [t]) == Lines(file);
  }

  /** What one more line, unterminated, does to a clean journal: text that cannot be decoded is a read error; a record
      must have the next number; and what is no record is ignored, unless it is blank, which is corruption. */
  lemma LastLineExactly(k: Codec, file: seq<Byte>, t: seq<Byte>)
    requires Clean(k, file) && t != [] && LF !in t
    ensures k.decodeUtf8(t).None? ==> Replay(k, file + t) == Err(ReadError)
    ensures k.decodeUtf8(t).Some? ==>
              var (n, text) := (|Lines(file)|, k.decodeUtf8(t).value);
              match ParseText(k, text)
              case Err(why) =>
                Replay(k, file + t) == if IsBlank(text) then Err(BadLine(n + 1, why)) else Ok(Entries(k, file))
              case Ok(r) =>
                Replay(k, file + t)
                == if r.seqNo == n then Ok(Entries(k, file) + [r]) else Err(OutOfSequence(n + 1, r.seqNo, n))
  {
    hide Lines, ParseText, AllHold;
    LinesConcat(file, t);
    OneLine(t);
    var (lines, n) := (Lines(file) + [t], |Lines(file)|);
    LastKind(k, t);
    hide Classify;
    match Classify(k, t)
    case Parsed(r) =>
      if r.seqNo == n {
        CompleteLast(k, file, t, r);
      } else {
        StopsAtLast(k, file, t, OutOfSequence(n + 1, r.seqNo, n));
      }
    case Garbled(_) =>
      TornTailTolerated(k, file, t);
      CleanReplays(k, file);
    case BlankLine(why) => StopsAtLast(k, file, t, BadLine(n + 1, why));
    case Unreadable => StopsAtLast(k, file, t, ReadError);
  }

  lemma LastKind(k: Codec, t: seq<Byte>)
    ensures k.decodeUtf8(t).None? ==> Classify(k, t) == Unreadable
    ensures k.decodeUtf8(t).Some? ==>
              match ParseText(k, k.decodeUtf8(t).value)
              case Ok(r) => Classify(k, t) == Parsed(r)
              case Err(why) =>
                Classify(k, t) == if IsBlank(k.decodeUtf8(t).value) then BlankLine(why) else Garbled(why)
  {
  }

  /** A last line that stops the replay stops it at once, or one line earlier if it cannot be read. */
  lemma StopsAtLast(k: Codec, file: seq<Byte>, t: seq<Byte>, e: StoreError)
    requires Clean(k, file) && Lines(file + t) == Lines(file) + [t]
    requires StoppedAt(k, Lines(file) + [t], |Lines(file)|) == Some(e)
    requires Classify(k, t).Unreadable? ==> e == ReadError
    ensures Replay(k, file + t) == Err(e)
  {
    hide Lines, Classify;
    var (lines, n) := (Lines(file) + [t], |Lines(file)|);
    forall j | 0 <= j < n
      ensures StoppedAt(k, lines, j) == if j + 1 == n && Classify(k, t).Unreadable? then Some(ReadError) else None
    {
      assert Holds(k, Lines(file)[j], 0 + j);
      if j + 1 < n {
        assert Holds(k, Lines(file)[j + 1], 0 + (j + 1));
      }
    }
    var i := if n > 0 && Classify(k, t).Unreadable? then n - 1 else n;
    assert FirstStop(k, lines, 0, i, e);
    ReplayErrorExactly(k, file + t, e);
  }

  /** The first `n` bytes, if there are that many. */
  function Cut(line: seq<Byte>, n: nat): seq<Byte> {
    if n <= |line| then line[..n] else line
  }

  /** A property of JSON text: a record cut short is neither a record nor blank. */
  ghost predicate NoCutRecords(k: Codec) {
    forall r, n: nat | 0 < n < |RecordLine(k, r)| ::
      var kind := Classify(k, RecordLine(k, r)[..n]);
      kind.Garbled? || kind.Unreadable?
  }

  /** A property of JSON text: behind the beginning of a record a line never becomes blank. */
  ghost predicate CutsStayVisible(k: Codec) {
    forall r, n: nat, t | 0 < n <= |RecordLine(k, r)| :: !Classify(k, RecordLine(k, r)[..n] + t).BlankLine?
  }

  lemma CompleteLast(k: Codec, file: seq<Byte>, line: seq<Byte>, r: CommitRecord)
    requires Clean(k, file) && Lines(file + line) == Lines(file) + [line]
    requires Classify(k, line) == Parsed(r) && r.seqNo == |Lines(file)|
    ensures Replay(k, file + line) == Ok(Entries(k, file) + [r])
  {
    hide Lines, Classify;
    HoldSnoc(k, Lines(file), line);
    LastHolds(k, Lines(file) + [line], 0);
    ReplayExact(k, file + line);
  }

  lemma UnreadableLast(k: Codec, file: seq<Byte>, line: seq<Byte>)
    requires Lines(file + line) == Lines(file) + [line] && Classify(k, line).Unreadable?
    ensures Replay(k, file + line).Err?
  {
    hide Lines, Classify;
    HoldSnoc(k, Lines(file), line);
    ReplayExact(k, file + line);
  }

  /** A write that stops after `n` bytes of the line, without its line feed. The restart keeps the
      earlier records, plus the new one if its line is complete, if and only if the bytes that
      arrived are valid UTF-8; a write torn inside a multi-byte character is a read error, and the
      service does not start. */
  lemma TornWriteExact(k: Codec, file: seq<Byte>, r: CommitRecord, n: nat)
    requires Faithful(k) && NoCutRecords(k) && Clean(k, file) && r.seqNo == |Lines(file)|
    requires 0 < n <= |RecordLine(k, r)|
    ensures var cut := RecordLine(k, r)[..n];
            && (Replay(k, file + cut).Ok? <==> k.decodeUtf8(cut).Some?)
            && (Replay(k, file + cut).Ok? ==>
                Replay(k, file + cut).value
                == Entries(k, file) + (if n == |RecordLine(k, r)| then [r] else []))
  {
    hide Lines, RecordLine, Holds, AllHold;
    var line := RecordLine(k, r);
    var cut := line[..n];
    LineOfRecord(k, r);
    assert n == |line| ==> cut == line;
    LinesConcat(file, cut);
    OneLine(cut);
    if n == |line| {
      CompleteLast(k, file, cut, r);
    } else if Classify(k, cut).Garbled? {
      TornTailTolerated(k, file, cut);
      CleanReplays(k, file);
    } else {
      UnreadableLast(k, file, cut);
    }
  }

  /** After any successful start, one more record survives the next restart exactly if the journal was
      clean: the tail is never truncated. A record written behind a terminated bad line makes that line a
      corruption in the middle, and the service refuses to start. One written behind an unterminated tail is
      glued to it: if the glued line can be read and is not blank, the service starts with what the terminated
      lines hold, and otherwise it refuses to start. */
  lemma AppendSurvivesExactly(k: Codec, file: seq<Byte>, r: CommitRecord)
    requires Faithful(k) && NoGluedRecords(k)
    requires Replay(k, file).Ok? && r.seqNo == |Replay(k, file).value|
    ensures Replay(k, file + Written(k, r)) == Ok(Replay(k, file).value + [r]) <==> Clean(k, file)
    ensures Terminated(file) && !Clean(k, file) ==> Replay(k, file + Written(k, r)).Err?
    ensures !Terminated(file) ==>
              var (after, whole) := (Replay(k, file + Written(k, r)), Lines(Head(file)));
              && AllHold(k, whole, 0) && whole <= Lines(file)
              && (after.Ok? <==> Classify(k, Tail(file) + RecordLine(k, r)).Garbled?)
              && (after.Ok? ==> after.value == RecordsOf(k, whole, 0) && |after.value| <= |Replay(k, file).value|)
  {
    hide Lines, RecordLine, AllHold, Classify, Terminated;
    ReplayExact(k, file);
    if Clean(k, file) {
      CleanReplays(k, file);
      AppendKeepsClean(k, file, r);
      CleanReplays(k, file + Written(k, r));
    } else if Terminated(file) {
      BadLineBuried(k, file, r);
    } else {
      TailGlued(k, file, r);
    }
  }

  lemma BadLineBuried(k: Codec, file: seq<Byte>, r: CommitRecord)
    requires Faithful(k) && Terminated(file) && !AllHold(k, Lines(file), 0)
    ensures Replay(k, file + Written(k, r)).Err?
  {
    hide Lines, RecordLine, Holds, AllHold, Written, Classify;
    WrittenLast(k, file, r);
    LineOfRecord(k, r);
    HoldSnoc(k, Lines(file), RecordLine(k, r));
    ReplayExact(k, file + Written(k, r));
    assert WholeLines(k, Lines(file) + [RecordLine(k, r)]) == Lines(file) + [RecordLine(k, r)];
  }

  /** A last line that is no record adds nothing, and is only tolerated if it is garbled. */
  lemma GluedLast(k: Codec, file: seq<Byte>, whole: seq<seq<Byte>>, last: seq<Byte>)
    requires Lines(file) == whole + [last] && !Classify(k, last).Parsed?
    ensures Replay(k, file).Ok? <==> AllHold(k, whole, 0) && Classify(k, last).Garbled?
    ensures Replay(k, file).Ok? ==> Replay(k, file).value == RecordsOf(k, whole, 0)
  {
    hide Lines, Classify;
    ReplayExact(k, file);
    HoldSnoc(k, whole, last);
    assert (whole + [last])[..|whole|] == whole;
  }

  lemma TailGlued(k: Codec, file: seq<Byte>, r: CommitRecord)
    requires Faithful(k) && NoGluedRecords(k) && Replay(k, file).Ok? && !Terminated(file)
    ensures var (after, whole) := (Replay(k, file + Written(k, r)), Lines(Head(file)));
            && AllHold(k, whole, 0) && whole <= Lines(file)
            && (after.Ok? <==> Classify(k, Tail(file) + RecordLine(k, r)).Garbled?)
            && (after.Ok? ==> after.value == RecordsOf(k, whole, 0) && |after.value| <= |Replay(k, file).value|)
  {
    hide Lines, RecordLine, AllHold, Written, Classify, Tail, Head;
    var (whole, tail, glued) := (Lines(Head(file)), Tail(file), Tail(file) + RecordLine(k, r));
    ReplayExact(k, file);
    LinesHeadTail(file);
    WrittenLines(k, file, r);
    HoldSnoc(k, whole, tail);
    assert Lines(file) == whole + [tail];
    assert !Classify(k, tail).BlankLine?;
    GluedLast(k, file + Written(k, r), whole, glued);
    assert (whole + [tail])[..|whole|] == whole;
  }

  /** An append that fails after `n` bytes have reached the file, in a service that keeps running, and
      then an append that succeeds: the next restart reads back what the service serves if and only
      if the failed write left nothing behind. */
  lemma FailedWriteExact(k: Codec, file: seq<Byte>, failed: CommitRecord, n: nat, r: CommitRecord)
    requires Faithful(k) && NoGluedRecords(k) && NoCutRecords(k) && Clean(k, file)
    requires failed.seqNo == |Lines(file)| == r.seqNo && n <= |Written(k, failed)|
    ensures Replay(k, file + Written(k, failed)[..n] + Written(k, r)) == Ok(Entries(k, file) + [r]) <==> n == 0
  {
    hide Lines, RecordLine, AllHold, Classify;
    var line := RecordLine(k, failed);
    var cut := Written(k, failed)[..n];
    LineOfRecord(k, failed);
    if n == 0 {
      assert file + cut == file;
      AppendKeepsClean(k, file, r);
      CleanReplays(k, file + Written(k, r));
    } else if n == |line| + 1 {
      assert cut == Written(k, failed);
      AppendKeepsClean(k, file, failed);
      DuplicateRefused(k, file + cut, r);
    } else {
      assert cut == line[..n];
      assert n == |line| ==> cut == line;
      CutGlued(k, file, cut, r);
    }
  }

  /** A second record with a number that is already taken is refused at the next restart. */
  lemma DuplicateRefused(k: Codec, file: seq<Byte>, r: CommitRecord)
    requires Faithful(k) && Clean(k, file) && r.seqNo != |Lines(file)|
    ensures Replay(k, file + Written(k, r)).Err?
  {
    hide Lines, RecordLine, AllHold, Written, Classify;
    WrittenLast(k, file, r);
    LineOfRecord(k, r);
    HoldSnoc(k, Lines(file), RecordLine(k, r));
    ReplayExact(k, file + Written(k, r));
    assert WholeLines(k, Lines(file) + [RecordLine(k, r)]) == Lines(file) + [RecordLine(k, r)];
  }

  lemma CutGlued(k: Codec, file: seq<Byte>, cut: seq<Byte>, r: CommitRecord)
    requires Faithful(k) && NoGluedRecords(k) && Clean(k, file)
    requires cut != [] && LF !in cut && !Classify(k, cut).BlankLine?
    ensures var after := Replay(k, file + cut + Written(k, r));
            after.Err? || |after.value| == |Entries(k, file)|
  {
    hide Lines, RecordLine, AllHold, Classify;
    var glued := cut + RecordLine(k, r);
    LineOfRecord(k, r);
    assert file + cut + Written(k, r) == file + (glued + [LF]);
    LinesConcat(file, glued + [LF]);
    OneLine(glued);
    GluedLast(k, file + (glued + [LF]), Lines(file), glued);
  }

  lemma NonEmptyHasLine(text: seq<Byte>)
    requires text != []
    ensures Lines(text) != []
  {
  }

  lemma WholeLinesConcat(k: Codec, a: seq<seq<Byte>>, b: seq<seq<Byte>>)
    requires b != []
    ensures WholeLines(k, a + b) == a + WholeLines(k, b)
  {
    hide Classify;
    assert (a + b)[..|a + b| - 1] == a + b[..|b| - 1];
  }

  lemma AllHoldPrefix(k: Codec, a: seq<seq<Byte>>, b: seq<seq<Byte>>)
    ensures AllHold(k, a + b, 0) ==> AllHold(k, a, 0)
  {
    hide Holds;
    if AllHold(k, a + b, 0) {
      forall i | 0 <= i < |a| ensures Holds(k, a[i], 0 + i) {
        assert Holds(k, (a + b)[i], 0 + i);
      }
    }
  }

  /** A terminated journal with a line that does not hold its record is beyond repair by writing: whatever is
      written behind it, the next start fails. */
  lemma BadLineForever(k: Codec, file: seq<Byte>, more: seq<Byte>)
    requires Terminated(file) && !AllHold(k, Lines(file), 0) && more != []
    ensures Replay(k, file + more).Err?
  {
    hide Lines, Classify, AllHold, RecordsOf;
    LinesConcat(file, more);
    ReplayExact(k, file + more);
    NonEmptyHasLine(more);
    WholeLinesConcat(k, Lines(file), Lines(more));
    AllHoldPrefix(k, Lines(file), WholeLines(k, Lines(more)));
  }

  /** After a failed append that left bytes and a later append that succeeded, no later start reads back what is
      served: with nothing more in the file a record is missing or the start fails, and with anything more in
      it, written by whatever later appends, the start fails. */
  lemma FailedWriteForever(k: Codec, file: seq<Byte>, failed: CommitRecord, n: nat, r: CommitRecord, more: seq<Byte>)
    requires Faithful(k) && NoGluedRecords(k) && NoCutRecords(k) && Clean(k, file)
    requires failed.seqNo == |Lines(file)| == r.seqNo && 0 < n <= |Written(k, failed)|
    ensures var spoiled := file + Written(k, failed)[..n] + Written(k, r);
            && (more != [] ==> Replay(k, spoiled + more).Err?)
            && Replay(k, spoiled) != Ok(Entries(k, file) + [r])
  {
    hide RecordLine, Classify, Lines, Holds, AllHold, Written;
    var cut := Written(k, failed)[..n];
    FailedWriteExact(k, file, failed, n, r);
    SpoiledLines(k, file, failed, n, r);
    if more != [] {
      BadLineForever(k, file + cut + Written(k, r), more);
    }
  }

  lemma SpoiledLines(k: Codec, file: seq<Byte>, failed: CommitRecord, n: nat, r: CommitRecord)
    requires Faithful(k) && NoGluedRecords(k) && NoCutRecords(k) && Clean(k, file)
    requires failed.seqNo == |Lines(file)| == r.seqNo && 0 < n <= |Written(k, failed)|
    ensures var spoiled := file + Written(k, failed)[..n] + Written(k, r);
            Terminated(spoiled) && !AllHold(k, Lines(spoiled), 0)
  {
    hide RecordLine, Classify, Lines, AllHold;
    var line := RecordLine(k, failed);
    var cut := Written(k, failed)[..n];
    LineOfRecord(k, failed);
    LineOfRecord(k, r);
    if n == |line| + 1 {
      assert cut == Written(k, failed);
      AppendKeepsClean(k, file, failed);
      WrittenLast(k, file, failed);
      WrittenLast(k, file + cut, r);
      HoldSnoc(k, Lines(file + cut), RecordLine(k, r));
    } else {
      assert cut == line[..n] && (n == |line| ==> cut == line);
      assert !Classify(k, cut).BlankLine?;
      var glued := cut + RecordLine(k, r);
      assert !Classify(k, glued).Parsed?;
      Regroup(file, cut, RecordLine(k, r));
      LinesConcat(file, glued + [LF]);
      OneLine(glued);
      HoldSnoc(k, Lines(file), glued);
    }
  }

  // ------------------------------------------------------------------ whole runs

  /** What can happen to a store: an append that succeeds, one that fails before a byte is written, and
      the end of the process followed by a new start on the same journal. */
  datatype Event =
    | Append(subject: string, commitment: Hash, saltRef: Option<U64>, loggedAt: Timestamp)
    | AppendRefused
    | Reopen

  /** The durable file and the entries served from memory. */
  datatype Log = Log(file: seq<Byte>, entries: seq<CommitRecord>)

  ghost predicate InStep(k: Codec, s: Log) {
    Clean(k, s.file) && Replay(k, s.file) == Ok(s.entries)
  }

  function RecordFor(n: U64, e: Event): CommitRecord
    requires e.Append?
  {
    CommitRecord(n, e.loggedAt, e.subject, e.commitment, e.saltRef)
  }

  /** One event: write ahead, then apply; a reopen knows nothing but the file. */
  function Step(k: Codec, s: Log, e: Event): (r: Result<Log, StoreError>)
    requires |s.entries| < TWO_TO_THE_64
  {
    match e
    case Append(_, _, _, _) =>
      var r := RecordFor(|s.entries|, e);
      Ok(Log(s.file + Written(k, r), s.entries + [r]))
    case AppendRefused => Ok(s)
    case Reopen =>
      match Replay(k, s.file)
      case Ok(entries) => Ok(Log(s.file, entries))
      case Err(e) => Err(e)
  }

  function Run(k: Codec, s: Log, events: seq<Event>): Result<Log, StoreError>
    decreases |events|
  {
    if events == [] then Ok(s)
    else if |s.entries| >= TWO_TO_THE_64 then Err(WriteFailed)
    else
      match Step(k, s, events[0])
      case Err(e) => Err(e)
      case Ok(s') => Run(k, s', events[1..])
  }

  /** The records a run appends, in order. */
  function Appended(n: nat, events: seq<Event>): seq<CommitRecord>
    requires n + |events| <= TWO_TO_THE_64
    decreases |events|
  {
    if events == [] then []
    else if events[0].Append? then [RecordFor(n, events[0])] + Appended(n + 1, events[1..])
    else Appended(n, events[1..])
  }

  function WithoutReopens(events: seq<Event>): (r: seq<Event>)
    ensures |r| <= |events|
  {
    if events == [] then []
    else if events[0].Reopen? then WithoutReopens(events[1..])
    else [events[0]] + WithoutReopens(events[1..])
  }

  lemma StepStaysInStep(k: Codec, s: Log, e: Event)
    requires Faithful(k) && InStep(k, s) && |s.entries| < TWO_TO_THE_64
    ensures Step(k, s, e).Ok? && InStep(k, Step(k, s, e).value)
    ensures e.Reopen? ==> Step(k, s, e) == Ok(s)
  {
    hide Lines, Replay, Clean, Written;
    if e.Append? {
      CleanReplays(k, s.file);
      AppendKeepsClean(k, s.file, RecordFor(|s.entries|, e));
      CleanReplays(k, s.file + Written(k, RecordFor(|s.entries|, e)));
    }
  }

  lemma StepEntries(k: Codec, s: Log, e: Event)
    requires |s.entries| < TWO_TO_THE_64 && Step(k, s, e).Ok? && (e.Reopen? ==> Step(k, s, e) == Ok(s))
    ensures Step(k, s, e).value.entries == s.entries + (if e.Append? then [RecordFor(|s.entries|, e)] else [])
  {
  }

  /** Restart equivalence: from a clean journal, in any interleaving of appends and restarts, no restart
      fails, every state served is exactly what the file holds, the entries are the initial ones followed
      by the appended ones, and the run ends as if it had never been restarted. */
  lemma {:induction false} RestartEquivalence(k: Codec, s: Log, events: seq<Event>)
    requires Faithful(k) && InStep(k, s) && |s.entries| + |events| <= TWO_TO_THE_64
    ensures var end := Run(k, s, events);
            && end.Ok? && InStep(k, end.value)
            && end.value.entries == s.entries + Appended(|s.entries|, events)
            && end == Run(k, s, WithoutReopens(events))
    decreases |events|
  {
    hide InStep, Replay, Written;
    if events != [] {
      StepStaysInStep(k, s, events[0]);
      StepEntries(k, s, events[0]);
      RestartEquivalence(k, Step(k, s, events[0]).value, events[1..]);
      if !events[0].Reopen? {
        assert WithoutReopens(events)[1..] == WithoutReopens(events[1..]);
      }
    }
  }

  /** An absent journal is clean, so the equivalence covers every run of a new log. */
  lemma FreshLog(k: Codec)
    ensures InStep(k, Log([], []))
  {
  }

  // ------------------------------------------------------------------ any number of failed writes

  lemma TailSnoc(file: seq<Byte>, b: Byte)
    requires b != LF
    ensures Tail(file + [b]) == Tail(file) + [b]
  {
    var longer := file + [b];
    assert longer[..|longer| - 1] == file;
  }

  lemma {:induction false} TailWithout(file: seq<Byte>, text: seq<Byte>)
    requires LF !in text
    ensures Tail(file + text) == Tail(file) + text && Head(file + text) == Head(file)
    decreases |text|
  {
    hide Tail, Terminated;
    if text == [] {
      assert file + text == file;
    } else {
      var (init, last) := (text[..|text| - 1], text[|text| - 1]);
      TailWithout(file, init);
      TailSnoc(file + init, last);
      assert file + text == (file + init) + [last];
      assert Tail(file) + text == (Tail(file) + init) + [last];
    }
    SameHead(file, text);
  }

  lemma SameHead(file: seq<Byte>, text: seq<Byte>)
    requires Tail(file + text) == Tail(file) + text
    ensures Head(file + text) == Head(file)
  {
    hide Tail, Terminated;
    var n := |file| - |Tail(file)|;
    assert (file + text)[..n] == file[..n];
  }

  /** The last line starts with the first bytes of a record, however many of them. */
  ghost predicate BehindRecord(k: Codec, tail: seq<Byte>) {
    exists r, n: nat, t | 0 < n <= |RecordLine(k, r)| :: tail == RecordLine(k, r)[..n] + t
  }

  /** A journal that no writing brings back: it has a terminated line that does not hold its record, or a record
      begun in its unterminated tail. */
  ghost predicate Ruined(k: Codec, file: seq<Byte>) {
    !AllHold(k, Lines(Head(file)), 0) || BehindRecord(k, Tail(file))
  }

  /** The journal is clean, but holds one record more than is served. */
  ghost predicate OneAhead(k: Codec, s: Log) {
    Clean(k, s.file) && |Lines(s.file)| == |s.entries| + 1 && s.entries <= Entries(k, s.file)
  }

  lemma HeadOfTerminated(file: seq<Byte>)
    requires Terminated(file)
    ensures Head(file) == file && Tail(file) == []
  {
  }

  /** The three conditions of a journal exclude each other. */
  lemma ConditionsApart(k: Codec, s: Log)
    ensures Ruined(k, s.file) ==> !Clean(k, s.file)
    ensures OneAhead(k, s) ==> !InStep(k, s)
  {
    hide Lines, AllHold, Replay, RecordLine;
    if Clean(k, s.file) {
      CleanReplays(k, s.file);
      HeadOfTerminated(s.file);
    }
  }

  /** A start on a journal that is one record ahead serves that record, and is in step again. */
  lemma AheadRestarts(k: Codec, s: Log)
    requires OneAhead(k, s)
    ensures Replay(k, s.file) == Ok(Entries(k, s.file)) && InStep(k, Log(s.file, Entries(k, s.file)))
    ensures s.entries <= Entries(k, s.file)
  {
    CleanReplays(k, s.file);
  }

  /** A whole line behind a ruined journal leaves a terminated line that does not hold its record. */
  lemma RuinedThenWritten(k: Codec, file: seq<Byte>, r: CommitRecord)
    requires Faithful(k) && NoGluedRecords(k) && CutsStayVisible(k) && Ruined(k, file)
    ensures Lines(file + Written(k, r)) == Lines(Head(file)) + [Tail(file) + RecordLine(k, r)]
    ensures AllHold(k, Lines(Head(file)), 0) ==> !Classify(k, Tail(file) + RecordLine(k, r)).Parsed?
    ensures !AllHold(k, Lines(file + Written(k, r)), 0) && Ruined(k, file + Written(k, r))
  {
    hide Lines, RecordLine, AllHold, Classify, Terminated;
    var (whole, glued) := (Lines(Head(file)), Tail(file) + RecordLine(k, r));
    WrittenLines(k, file, r);
    WrittenTerminated(k, file, r);
    HoldSnoc(k, whole, glued);
    if BehindRecord(k, Tail(file)) {
      assert !Classify(k, Tail(file)).BlankLine?;
      assert !Classify(k, glued).Parsed?;
    }
  }

  lemma WrittenTerminated(k: Codec, file: seq<Byte>, r: CommitRecord)
    ensures Terminated(file + Written(k, r)) && Head(file + Written(k, r)) == file + Written(k, r)
  {
  }

  lemma CutBehind(k: Codec, tail: seq<Byte>, r: CommitRecord, m: nat)
    requires 0 < m <= |RecordLine(k, r)| && (tail == [] || BehindRecord(k, tail))
    ensures BehindRecord(k, tail + RecordLine(k, r)[..m])
  {
    hide RecordLine;
    var cut := RecordLine(k, r)[..m];
    if tail == [] {
      assert tail + cut == RecordLine(k, r)[..m] + [];
    } else {
      var r', n: nat, t :| 0 < n <= |RecordLine(k, r')| && tail == RecordLine(k, r')[..n] + t;
      assert tail + cut == RecordLine(k, r')[..n] + (t + cut);
    }
  }

  /** What reaches the file of a write: nothing, a part of the line, or all of it with its line feed. */
  lemma CutCases(k: Codec, r: CommitRecord, m: nat)
    ensures var (line, cut) := (RecordLine(k, r), Cut(Written(k, r), m));
            if m == 0 then cut == [] else if m <= |line| then cut == line[..m] else cut == Written(k, r)
  {
    hide RecordLine;
  }

  /** Damage stays, whether later writes succeed or fail. */
  lemma RuinedStays(k: Codec, file: seq<Byte>, r: CommitRecord, m: nat)
    requires Faithful(k) && NoGluedRecords(k) && CutsStayVisible(k) && Ruined(k, file)
    ensures Ruined(k, file + Cut(Written(k, r), m))
  {
    hide Lines, RecordLine, AllHold, Classify, BehindRecord, Cut, Written;
    CutCases(k, r, m);
    LineOfRecord(k, r);
    if m == 0 {
      assert file + [] == file;
    } else if m <= |RecordLine(k, r)| {
      TailWithout(file, RecordLine(k, r)[..m]);
      if AllHold(k, Lines(Head(file)), 0) {
        CutBehind(k, Tail(file), r, m);
      }
    } else {
      RuinedThenWritten(k, file, r);
    }
  }

  /** A write that stops inside its line or just before its line feed ruins a clean journal. */
  lemma CutRuins(k: Codec, file: seq<Byte>, r: CommitRecord, m: nat)
    requires Faithful(k) && Clean(k, file) && 0 < m <= |RecordLine(k, r)|
    ensures Ruined(k, file + Cut(Written(k, r), m))
  {
    hide Lines, RecordLine, AllHold, Classify, BehindRecord, Cut, Written;
    CutCases(k, r, m);
    LineOfRecord(k, r);
    HeadOfTerminated(file);
    TailWithout(file, RecordLine(k, r)[..m]);
    CutBehind(k, Tail(file), r, m);
  }

  /** A failed write that leaves its whole line puts the journal one record ahead. */
  lemma WholeLineAhead(k: Codec, s: Log, r: CommitRecord)
    requires Faithful(k) && InStep(k, s) && r.seqNo == |s.entries|
    ensures OneAhead(k, Log(s.file + Written(k, r), s.entries))
  {
    hide Lines, Written, AllHold, Replay;
    CleanReplays(k, s.file);
    AppendKeepsClean(k, s.file, r);
  }

  /** One more line behind a journal that is one record ahead holds the wrong number. */
  lemma AheadThenWritten(k: Codec, s: Log, r: CommitRecord)
    requires Faithful(k) && OneAhead(k, s) && r.seqNo == |s.entries|
    ensures Ruined(k, s.file + Written(k, r)) && Replay(k, s.file + Written(k, r)).Err?
  {
    hide Lines, RecordLine, AllHold, Classify, Replay, Written;
    DuplicateRefused(k, s.file, r);
    WrittenTerminated(k, s.file, r);
    WrittenLast(k, s.file, r);
    LineOfRecord(k, r);
    HoldSnoc(k, Lines(s.file), RecordLine(k, r));
  }

  /** A terminated line of the journal already holds this very record. */
  predicate AlreadyHeld(k: Codec, file: seq<Byte>, r: CommitRecord) {
    var whole := Lines(Head(file));
    r.seqNo < |whole| && Classify(k, whole[r.seqNo]) == Parsed(r)
  }

  /** A record that is written behind a ruined journal is never read back. */
  lemma LostOverDamage(k: Codec, file: seq<Byte>, r: CommitRecord)
    requires Faithful(k) && NoGluedRecords(k) && CutsStayVisible(k) && Ruined(k, file)
    ensures var after := Replay(k, file + Written(k, r));
            after.Ok? && r.seqNo < |after.value| && after.value[r.seqNo] == r ==> AlreadyHeld(k, file, r)
  {
    hide Lines, RecordLine, Classify, Written, Head, Tail, Ruined, AllHold;
    var (whole, glued) := (Lines(Head(file)), Tail(file) + RecordLine(k, r));
    RuinedThenWritten(k, file, r);
    ReplayExact(k, file + Written(k, r));
    if AllHold(k, whole, 0) {
      GluedLast(k, file + Written(k, r), whole, glued);
      HeldThere(k, whole, r.seqNo);
    } else {
      AllHoldPrefix(k, whole, [glued]);
      assert (whole + [glued])[..|whole|] == whole;
    }
  }

  lemma HeldThere(k: Codec, lines: seq<seq<Byte>>, i: nat)
    requires AllHold(k, lines, 0)
    ensures i < |lines| ==> Classify(k, lines[i]) == Parsed(RecordsOf(k, lines, 0)[i])
  {
    hide Classify;
    if i < |lines| {
      assert Holds(k, lines[i], 0 + i);
    }
  }
}
