/** Durability over whole runs, failed writes and restarts included: exactly which runs end with a journal that is in
    step and with every receipt still served, and what happens to the next record after any other run. */
module Durability {
  import opened Digests
  import opened Bits
  import opened MerkleSpec
  import opened Records
  import opened Journal
  import opened Restart
  import opened CompactJson
  import opened Receipts
  import opened Protocol
  import opened Executions

  // ------------------------------------------------------------------ writes of a run

  /** The step brings bytes to the journal. */
  predicate Writes(a: Action) {
    a.Sequence? && (a.fault.None? || a.fault.value > 0)
  }

  /** The step is a failed write that leaves bytes. */
  predicate LeavesBytes(a: Action) {
    a.Sequence? && a.fault.Some? && a.fault.value > 0
  }

  predicate NothingWritten(run: seq<Action>, i: nat, j: nat)
    requires j <= |run|
  {
    forall k | i <= k < j :: !Writes(run[k])
  }

  /** What the failed write of step `i` leaves is its whole line with the line feed. */
  ghost predicate LeavesLine(svc: Service, run: seq<Action>, i: nat)
    requires i < |run|
  {
    var n := LenAt(svc, run, i);
    && LeavesBytes(run[i]) && n < TWO_TO_THE_64
    && run[i].fault.value > |RecordLine(svc.codec, SequencedRecord(n, run[i]))|
  }

  /** The service is restarted before anything is written behind step `i`. */
  predicate RestartedNext(run: seq<Action>, i: nat) {
    exists j | i < j < |run| :: run[j].Restarting? && NothingWritten(run, i + 1, j)
  }

  /** Every failed write that left bytes left its whole line, and was followed by a restart before anything more
      was written. */
  ghost predicate Mended(svc: Service, run: seq<Action>) {
    forall i | 0 <= i < |run| && LeavesBytes(run[i]) :: LeavesLine(svc, run, i) && RestartedNext(run, i)
  }

  /** A restart now would mend the run, if it is not mended already. */
  ghost predicate Mendable(svc: Service, run: seq<Action>) {
    forall i | 0 <= i < |run| && LeavesBytes(run[i]) ::
      LeavesLine(svc, run, i) && (RestartedNext(run, i) || NothingWritten(run, i + 1, |run|))
  }

  lemma LeavesLineSnoc(svc: Service, run: seq<Action>, a: Action, i: nat)
    requires i < |run|
    ensures LeavesLine(svc, run + [a], i) <==> LeavesLine(svc, run, i)
  {
    hide LenAt;
    LenAtPrefix(svc, run, run + [a], i);
  }

  lemma NothingWrittenSnoc(run: seq<Action>, a: Action, i: nat, j: nat)
    requires i <= |run| && j <= |run|
    ensures NothingWritten(run + [a], i, j) <==> NothingWritten(run, i, j)
    ensures NothingWritten(run + [a], i, |run| + 1) <==> NothingWritten(run, i, |run|) && !Writes(a)
  {
    var longer := run + [a];
    assert forall k | 0 <= k < |run| :: longer[k] == run[k];
    if NothingWritten(longer, i, |run| + 1) {
      assert !Writes(longer[|run|]);
    }
  }

  lemma RestartedNextSnoc(run: seq<Action>, a: Action, i: nat)
    requires i < |run|
    ensures RestartedNext(run + [a], i)
            <==> RestartedNext(run, i) || (a.Restarting? && NothingWritten(run, i + 1, |run|))
  {
    hide NothingWritten;
    var (longer, next) := (run + [a], i + 1);
    forall j: nat | j <= |run| ensures NothingWritten(longer, next, j) <==> NothingWritten(run, next, j) {
      NothingWrittenSnoc(run, a, next, j);
    }
    if RestartedNext(run, i) {
      var j: nat :| i < j < |run| && run[j].Restarting? && NothingWritten(run, i + 1, j);
      assert longer[j].Restarting? && NothingWritten(longer, next, j);
    }
    if a.Restarting? && NothingWritten(run, next, |run|) {
      assert longer[|run|].Restarting? && NothingWritten(longer, next, |run|);
    }
  }

  /** The last step alone is neither restarted nor followed by a write. */
  lemma LastStep(run: seq<Action>, a: Action)
    ensures !RestartedNext(run + [a], |run|) && NothingWritten(run + [a], |run| + 1, |run| + 1)
  {
  }

  lemma MendedSnoc(svc: Service, run: seq<Action>, a: Action)
    ensures Mended(svc, run + [a])
            <==> if a.Restarting? then Mendable(svc, run) else Mended(svc, run) && !LeavesBytes(a)
  {
    hide LeavesLine, RestartedNext, NothingWritten;
    var longer := run + [a];
    LastStep(run, a);
    assert longer[|run|] == a && forall i | 0 <= i < |run| :: longer[i] == run[i];
    forall i: nat | i < |run|
      ensures LeavesLine(svc, longer, i) <==> LeavesLine(svc, run, i)
      ensures RestartedNext(longer, i)
              <==> RestartedNext(run, i) || (a.Restarting? && NothingWritten(run, i + 1, |run|))
    {
      LeavesLineSnoc(svc, run, a, i);
      RestartedNextSnoc(run, a, i);
    }
  }

  lemma MendableSnoc(svc: Service, run: seq<Action>, a: Action)
    ensures Mendable(svc, run + [a])
            <==> if Writes(a) then Mended(svc, run) && (LeavesBytes(a) ==> LeavesLine(svc, run + [a], |run|))
                 else Mendable(svc, run)
  {
    hide LeavesLine, RestartedNext, NothingWritten;
    var longer := run + [a];
    LastStep(run, a);
    assert longer[|run|] == a && forall i | 0 <= i < |run| :: longer[i] == run[i];
    forall i: nat | i < |run|
      ensures LeavesLine(svc, longer, i) <==> LeavesLine(svc, run, i)
      ensures RestartedNext(longer, i)
              <==> RestartedNext(run, i) || (a.Restarting? && NothingWritten(run, i + 1, |run|))
      ensures NothingWritten(longer, i + 1, |longer|) <==> NothingWritten(run, i + 1, |run|) && !Writes(a)
    {
      LeavesLineSnoc(svc, run, a, i);
      RestartedNextSnoc(run, a, i);
      NothingWrittenSnoc(run, a, i + 1, |run|);
    }
  }

  lemma MendedIsMendable(svc: Service, run: seq<Action>)
    ensures Mended(svc, run) ==> Mendable(svc, run)
  {
  }

  /** No failed write leaves bytes behind. */
  predicate NoTornWrites(run: seq<Action>) {
    forall i | 0 <= i < |run| :: !LeavesBytes(run[i])
  }

  /** A run in which no failed write leaves bytes is mended, and without restarts no other run is. */
  lemma UntornIsMended(svc: Service, run: seq<Action>)
    ensures NoTornWrites(run) ==> Mended(svc, run)
    ensures (forall i | 0 <= i < |run| :: !run[i].Restarting?) ==> (Mended(svc, run) <==> NoTornWrites(run))
  {
    hide LeavesLine, NothingWritten;
  }

  // ------------------------------------------------------------------ mended runs

  /** The receipts were issued in sequence, at most one for every entry. */
  predicate IssuedInOrder(issued: seq<Receipt>, n: nat) {
    && (forall i | 0 <= i < |issued| :: issued[i].record.seqNo < n)
    && (forall i, j | 0 <= i < j < |issued| :: issued[i].record.seqNo < issued[j].record.seqNo)
  }

  /** Every receipt ever answered is still served unchanged, and no number was used twice. */
  ghost predicate ReceiptsKept(svc: Service, issued: seq<Receipt>, entries: seq<CommitRecord>) {
    && IssuedInOrder(issued, |entries|)
    && (forall i | 0 <= i < |issued| :: StillServed(svc, entries, issued[i]))
  }

  ghost predicate Durable(svc: Service, s: State) {
    InStep(svc.codec, s.log) && ReceiptsKept(svc, s.issued, s.log.entries)
  }

  lemma KeptLater(svc: Service, issued: seq<Receipt>, entries: seq<CommitRecord>, later: seq<CommitRecord>)
    requires ReceiptsKept(svc, issued, entries) && entries <= later
    ensures ReceiptsKept(svc, issued, later)
  {
    FitsLater(svc, entries, later);
  }

  /** What one step does to a log that is in step or one record ahead, unless it ruins it. */
  ghost predicate Condition(svc: Service, s: State, mended: bool) {
    && ReceiptsKept(svc, s.issued, s.log.entries)
    && (if mended then InStep(svc.codec, s.log) else OneAhead(svc.codec, s.log))
  }

  ghost predicate Extends(s: State, s': State) {
    s.log.entries <= s'.log.entries && s.issued <= s'.issued
  }

  lemma SuccessKeeps(svc: Service, s: State, a: Action)
    requires Faithful(svc.codec) && Condition(svc, s, true) && Grows(a) && SequenceStep(svc, s, a).Some?
    ensures Condition(svc, SequenceStep(svc, s, a).value, true) && Extends(s, SequenceStep(svc, s, a).value)
  {
    hide ReceiptAt, Written, Replay, Clean, Faithful, IssuedInOrder, ReceiptsKept;
    var s' := SequenceStep(svc, s, a).value;
    StepStaysInStep(svc.codec, s.log, Append(a.subject, a.commitment, a.saltRef, a.loggedAt));
    KeptLater(svc, s.issued, s.log.entries, s'.log.entries);
    ReceiptIsOfRecord(svc, s'.log.entries, |s.log.entries|);
    if s'.issued != s.issued {
      IssueKeeps(svc, s.issued, s.log.entries, s'.log.entries, s'.issued[|s.issued|]);
    }
  }

  lemma IssueKeeps(
    svc: Service, issued: seq<Receipt>, entries: seq<CommitRecord>, later: seq<CommitRecord>, receipt: Receipt)
    requires ReceiptsKept(svc, issued, entries) && ReceiptsKept(svc, issued, later)
    requires receipt.record.seqNo == |entries| < |later| && StillServed(svc, later, receipt)
    ensures ReceiptsKept(svc, issued + [receipt], later)
  {
    hide StillServed;
  }

  lemma FailureKeeps(svc: Service, s: State, a: Action, mended: bool)
    requires Faithful(svc.codec) && Condition(svc, s, mended)
    requires a.Sequence? && a.fault.Some? && SequenceStep(svc, s, a).Some?
    requires a.fault.value == 0
             || (mended && a.fault.value > |RecordLine(svc.codec, SequencedRecord(|s.log.entries|, a))|)
    ensures Condition(svc, SequenceStep(svc, s, a).value, mended && a.fault.value == 0)
    ensures Extends(s, SequenceStep(svc, s, a).value)
  {
    hide ReceiptAt, Written, InStep, OneAhead, Faithful, ReceiptsKept, Cut, RecordLine;
    var record := SequencedRecord(|s.log.entries|, a);
    CutCases(svc.codec, record, a.fault.value);
    if a.fault.value == 0 {
      assert s.log.file + [] == s.log.file;
    } else {
      WholeLineAhead(svc.codec, s.log, record);
    }
  }

  lemma RestartKeepsCondition(svc: Service, s: State, mended: bool)
    requires Condition(svc, s, mended)
    ensures RestartStep(svc, s).Some?
    ensures Condition(svc, RestartStep(svc, s).value, true) && Extends(s, RestartStep(svc, s).value)
  {
    hide ReceiptsKept, Replay, Clean, StillServed;
    var s' := RestartStep(svc, s);
    if mended {
      CleanReplays(svc.codec, s.log.file);
    } else {
      AheadRestarts(svc.codec, s.log);
      KeptLater(svc, s.issued, s.log.entries, Entries(svc.codec, s.log.file));
    }
  }

  /** One step of a run that stays mendable. */
  lemma StepKeeps(svc: Service, run: seq<Action>, a: Action, s: State, s': State)
    requires Faithful(svc.codec) && Execute(svc, INITIAL, run) == Some(s) && Act(svc, s, a) == Some(s')
    requires Mendable(svc, run) && Condition(svc, s, Mended(svc, run)) && Mendable(svc, run + [a])
    ensures Condition(svc, s', Mended(svc, run + [a])) && Extends(s, s')
  {
    hide Condition, Execute, Mended, Mendable, Faithful, SequenceStep, ReplyStep, ReadAnchorStep, CurrentHeadOf;
    MendedSnoc(svc, run, a);
    MendableSnoc(svc, run, a);
    if a.Restarting? {
      RestartKeepsCondition(svc, s, Mended(svc, run));
    } else if !a.Sequence? {
      OtherLog(svc, s, a);
      SameCondition(svc, s, s', Mended(svc, run));
    } else if a.fault.None? {
      SuccessKeeps(svc, s, a);
    } else {
      LenNow(svc, run, a, s);
      FailureKeeps(svc, s, a, Mended(svc, run));
    }
  }

  lemma SameCondition(svc: Service, s: State, s': State, mended: bool)
    requires Condition(svc, s, mended) && s'.log == s.log && s'.issued == s.issued
    ensures Condition(svc, s', mended) && Extends(s, s')
  {
  }

  lemma LenNow(svc: Service, run: seq<Action>, a: Action, s: State)
    requires Execute(svc, INITIAL, run) == Some(s)
    ensures LenAt(svc, run + [a], |run|) == |s.log.entries|
  {
    assert (run + [a])[..|run|] == run;
  }

  /** A run that is mended ends in step, one that only lacks its restart ends one record ahead, and in both no
      receipt is lost and no number used twice. */
  lemma {:induction false} MendableKeeps(svc: Service, run: seq<Action>)
    requires Faithful(svc.codec) && Runs(svc, run) && Mendable(svc, run)
    ensures Condition(svc, Execute(svc, INITIAL, run).value, Mended(svc, run))
    decreases |run|
  {
    hide Condition, Execute, Mended, Mendable, Act, Faithful;
    if run == [] {
      FreshCondition(svc);
    } else {
      var (init, a) := (run[..|run| - 1], run[|run| - 1]);
      assert run == init + [a];
      RunSnoc(svc, init, a);
      MendableBefore(svc, init, a);
      MendableKeeps(svc, init);
      StepKeeps(svc, init, a, Execute(svc, INITIAL, init).value, Execute(svc, INITIAL, run).value);
    }
  }

  lemma MendableBefore(svc: Service, run: seq<Action>, a: Action)
    ensures Mendable(svc, run + [a]) ==> Mendable(svc, run)
  {
    hide Mended, Mendable;
    MendableSnoc(svc, run, a);
    MendedIsMendable(svc, run);
  }

  lemma FreshCondition(svc: Service)
    ensures Execute(svc, INITIAL, []) == Some(INITIAL) && Mended(svc, []) && Condition(svc, INITIAL, true)
  {
    FreshLog(svc.codec);
  }

  /** As long as a run is mendable the log only grows, and so do the receipts answered. */
  lemma {:induction false} GrowsWhileMendable(svc: Service, run: seq<Action>, i: nat)
    requires Faithful(svc.codec) && Runs(svc, run) && Mendable(svc, run) && i <= |run|
    ensures Runs(svc, run[..i])
    ensures Extends(Execute(svc, INITIAL, run[..i]).value, Execute(svc, INITIAL, run).value)
    decreases |run|
  {
    hide Condition, Execute, Mended, Mendable, Act, Faithful;
    PrefixRuns(svc, run, i);
    if i == |run| {
      assert run[..i] == run;
    } else {
      var (init, a) := (run[..|run| - 1], run[|run| - 1]);
      assert run == init + [a] && init[..i] == run[..i];
      RunSnoc(svc, init, a);
      MendableBefore(svc, init, a);
      MendableKeeps(svc, init);
      StepKeeps(svc, init, a, Execute(svc, INITIAL, init).value, Execute(svc, INITIAL, run).value);
      GrowsWhileMendable(svc, init, i);
    }
  }

  // ------------------------------------------------------------------ ruined runs

  /** The text layer as far as damage is concerned. */
  ghost predicate TextLayer(k: Codec) {
    Faithful(k) && NoGluedRecords(k) && CutsStayVisible(k)
  }

  lemma RuinedStep(svc: Service, s: State, a: Action)
    requires TextLayer(svc.codec) && Ruined(svc.codec, s.log.file) && Act(svc, s, a).Some?
    ensures Ruined(svc.codec, Act(svc, s, a).value.log.file)
  {
    hide Ruined, Faithful, NoGluedRecords, CutsStayVisible, SequenceStep, CurrentHeadOf;
    if a.Sequence? {
      SequenceActs(svc, s, a);
      SequenceFile(svc, s, a);
      var record := SequencedRecord(|s.log.entries|, a);
      RuinedThenWritten(svc.codec, s.log.file, record);
      RuinedStays(svc.codec, s.log.file, record, if a.fault.Some? then a.fault.value else 0);
    } else if !a.Restarting? {
      OtherLog(svc, s, a);
    }
  }

  /** What a sequencing step does to the file. */
  lemma SequenceFile(svc: Service, s: State, a: Action)
    requires a.Sequence? && SequenceStep(svc, s, a).Some?
    ensures |s.log.entries| + 1 < TWO_TO_THE_64
    ensures var (line, s') := (Written(svc.codec, SequencedRecord(|s.log.entries|, a)), SequenceStep(svc, s, a).value);
            s'.log.file == s.log.file + (if a.fault.Some? then Cut(line, a.fault.value) else line)
  {
    hide ReceiptAt;
  }

  /** A write ruins the log if it comes before the restart, or leaves a part of its line. */
  lemma WriteRuins(svc: Service, s: State, a: Action, mended: bool)
    requires TextLayer(svc.codec) && Condition(svc, s, mended)
    requires Writes(a) && SequenceStep(svc, s, a).Some? && |s.log.entries| < TWO_TO_THE_64
    requires mended ==>
               LeavesBytes(a) && a.fault.value <= |RecordLine(svc.codec, SequencedRecord(|s.log.entries|, a))|
    ensures Ruined(svc.codec, SequenceStep(svc, s, a).value.log.file)
  {
    hide Ruined, Faithful, NoGluedRecords, CutsStayVisible, SequenceStep, ReceiptsKept, RecordLine, Written, Clean, Cut;
    var record := SequencedRecord(|s.log.entries|, a);
    SequenceFile(svc, s, a);
    if LeavesBytes(a) {
      CutCases(svc.codec, record, a.fault.value);
    }
    if LeavesBytes(a) && a.fault.value <= |RecordLine(svc.codec, record)| {
      CutRuins(svc.codec, s.log.file, record, a.fault.value);
    } else {
      AheadThenWritten(svc.codec, s.log, record);
    }
  }

  /** A run that is not mendable has ruined its journal. */
  lemma {:induction false} UnmendableRuins(svc: Service, run: seq<Action>)
    requires TextLayer(svc.codec) && Runs(svc, run) && !Mendable(svc, run)
    ensures Ruined(svc.codec, Execute(svc, INITIAL, run).value.log.file)
    decreases |run|
  {
    hide Condition, Execute, Mended, Act, Faithful, Ruined, NoGluedRecords, CutsStayVisible, Writes;
    assert run != [];
    hide Mendable;
    var (init, a) := (run[..|run| - 1], run[|run| - 1]);
    assert run == init + [a];
    RunSnoc(svc, init, a);
    var s := Execute(svc, INITIAL, init).value;
    MendableSnoc(svc, init, a);
    if !Mendable(svc, init) {
      UnmendableRuins(svc, init);
      RuinedStep(svc, s, a);
    } else {
      MendableKeeps(svc, init);
      FirstRuin(svc, init, a, s);
    }
  }

  lemma FirstRuin(svc: Service, run: seq<Action>, a: Action, s: State)
    requires TextLayer(svc.codec) && Execute(svc, INITIAL, run) == Some(s) && Act(svc, s, a).Some?
    requires Condition(svc, s, Mended(svc, run)) && Writes(a)
    requires !(Mended(svc, run) && (LeavesBytes(a) ==> LeavesLine(svc, run + [a], |run|)))
    ensures Ruined(svc.codec, Act(svc, s, a).value.log.file)
  {
    hide Condition, Execute, Mended, Ruined, TextLayer, SequenceStep, RecordLine;
    SequenceActs(svc, s, a);
    SequenceFile(svc, s, a);
    LenNow(svc, run, a, s);
    WriteRuins(svc, s, a, Mended(svc, run));
  }

  // ------------------------------------------------------------------ exactly

  /** Durability, exactly: a run, whatever interleaves in it, failed writes and restarts included, ends with a clean
      journal that reads back as what is served if and only if it is mended, and then, and only then, it is also
      true that every receipt ever answered is still served unchanged and that their numbers increase. */
  lemma DurableExactly(svc: Service, run: seq<Action>)
    requires TextLayer(svc.codec) && Runs(svc, run)
    ensures InStep(svc.codec, Execute(svc, INITIAL, run).value.log) <==> Mended(svc, run)
    ensures Durable(svc, Execute(svc, INITIAL, run).value) <==> Mended(svc, run)
  {
    hide Execute, Mended, Mendable, TextLayer, ReceiptsKept, InStep, OneAhead, Ruined;
    var s := Execute(svc, INITIAL, run).value;
    MendedIsMendable(svc, run);
    LayerFaithful(svc.codec);
    ConditionsApart(svc.codec, s.log);
    InStepIsClean(svc.codec, s.log);
    if Mendable(svc, run) {
      MendableKeeps(svc, run);
    } else {
      UnmendableRuins(svc, run);
    }
  }

  lemma LayerFaithful(k: Codec)
    ensures TextLayer(k) ==> Faithful(k)
  {
    hide Faithful, NoGluedRecords, CutsStayVisible;
  }

  lemma InStepIsClean(k: Codec, s: Log)
    ensures InStep(k, s) ==> Clean(k, s.file)
  {
    hide Clean, Replay;
  }

  /** Heads never move backwards as long as a run is mendable: the head current before any of its steps is still the
      head of its size at the end, is not larger than the then current one, and its root is tied to the current
      root by the consistency proof from its size. */
  lemma HeadsMonotone(svc: Service, run: seq<Action>, i: nat) returns (head: Option<SignedTreeHead>)
    requires Faithful(svc.codec) && Runs(svc, run) && Mendable(svc, run) && i <= |run|
    ensures Runs(svc, run[..i])
    ensures head == CurrentHeadOf(svc.hashing, Execute(svc, INITIAL, run[..i]).value.log.entries, svc.operator)
    ensures head.Some? ==>
              var later := Execute(svc, INITIAL, run).value.log.entries;
              var D := Commitments(later);
              && IsHead(svc, later, head.value) && head.value.treeSize <= |later|
              && VerifyConsistency(svc.hashing, head.value.treeSize, head.value.root, |D|, Mth(svc.hashing, D),
                                   ConsistencyPath(svc.hashing, D, head.value.treeSize))
  {
    hide Mendable, Faithful, Mth, VerifyConsistency, ConsistencyPath, Execute;
    GrowsWhileMendable(svc, run, i);
    var entries := Execute(svc, INITIAL, run[..i]).value.log.entries;
    var later := Execute(svc, INITIAL, run).value.log.entries;
    head := CurrentHeadOf(svc.hashing, entries, svc.operator);
    if head.Some? {
      CurrentIsHead(svc, entries);
      FitsLater(svc, entries, later);
      assert Commitments(later)[..head.value.treeSize] == Commitments(later[..head.value.treeSize]);
      ConsistencyComplete(svc.hashing, Commitments(later), head.value.treeSize);
    }
  }

  /** What the last step of a run left is read back by a start that follows. */
  ghost predicate SurvivesRestart(svc: Service, run: seq<Action>)
    requires Runs(svc, run)
  {
    && Runs(svc, run + [Restarting])
    && Execute(svc, INITIAL, run).value.log.entries <= Execute(svc, INITIAL, run + [Restarting]).value.log.entries
  }

  lemma RestartedRun(svc: Service, run: seq<Action>, s: State)
    requires Execute(svc, INITIAL, run) == Some(s)
    ensures Runs(svc, run + [Restarting]) <==> Replay(svc.codec, s.log.file).Ok?
    ensures Runs(svc, run + [Restarting]) ==>
              Execute(svc, INITIAL, run + [Restarting]).value.log.entries == Replay(svc.codec, s.log.file).value
  {
    hide Replay, Execute;
    if Runs(svc, run + [Restarting]) {
      RunSnoc(svc, run, Restarting);
    }
    if Replay(svc.codec, s.log.file).Ok? {
      var longer, s' := Then(svc, run, s, Restarting);
    }
  }

  /** The next record appended, exactly: it survives the next restart if the run so far is mended, and if it is
      not, the start fails or what was served is not read back; but for one case, a record that a terminated line
      of the journal already holds, which is a retry of the very record that a failed write left whole. */
  lemma NextAppendSurvives(svc: Service, run: seq<Action>, a: Action)
    requires TextLayer(svc.codec) && Runs(svc, run + [a]) && Grows(a)
    ensures Runs(svc, run) && |Execute(svc, INITIAL, run).value.log.entries| < TWO_TO_THE_64
    ensures Mended(svc, run) ==> SurvivesRestart(svc, run + [a])
    ensures SurvivesRestart(svc, run + [a]) ==>
              || Mended(svc, run)
              || var log := Execute(svc, INITIAL, run).value.log;
                 AlreadyHeld(svc.codec, log.file, SequencedRecord(|log.entries|, a))
  {
    hide Execute, Mended, Mendable, TextLayer, Replay, SequenceStep, AlreadyHeld;
    RunSnoc(svc, run, a);
    var (s, s') := (Execute(svc, INITIAL, run).value, Execute(svc, INITIAL, run + [a]).value);
    SequenceActs(svc, s, a);
    SequenceFile(svc, s, a);
    RestartedRun(svc, run + [a], s');
    MendedSnoc(svc, run, a);
    DurableExactly(svc, run + [a]);
    if !Mended(svc, run) && SurvivesRestart(svc, run + [a]) {
      LostUnlessHeld(svc, run, a, s);
    }
  }

  lemma LostUnlessHeld(svc: Service, run: seq<Action>, a: Action, s: State)
    requires TextLayer(svc.codec) && Execute(svc, INITIAL, run) == Some(s) && !Mended(svc, run)
    requires Grows(a) && SequenceStep(svc, s, a).Some? && |s.log.entries| < TWO_TO_THE_64
    requires var (k, s') := (svc.codec, SequenceStep(svc, s, a).value);
             Replay(k, s'.log.file).Ok? && s'.log.entries <= Replay(k, s'.log.file).value
    ensures AlreadyHeld(svc.codec, s.log.file, SequencedRecord(|s.log.entries|, a))
  {
    hide Execute, Mended, Mendable, Replay, Faithful, NoGluedRecords, CutsStayVisible, AlreadyHeld, Ruined, OneAhead,
      ReceiptsKept, Written, ReceiptAt;
    var record := SequencedRecord(|s.log.entries|, a);
    if Mendable(svc, run) {
      MendableKeeps(svc, run);
      AheadThenWritten(svc.codec, s.log, record);
    } else {
      UnmendableRuins(svc, run);
      LostOverDamage(svc.codec, s.log.file, record);
      assert SequenceStep(svc, s, a).value.log.entries[|s.log.entries|] == record;
    }
  }

  // ------------------------------------------------------------------ a number used twice

  lemma OneByteLeft(f: Formats, r: CommitRecord)
    requires f.RoundTrip()
    ensures [] + Cut(Written(JournalCodec(f), r), 1) == [0x7B]
    ensures Replay(JournalCodec(f), [0x7B]) == Ok([])
  {
    hide Written, Cut, RecordLine, Replay;
    LineStarts(f, r);
    CutCases(JournalCodec(f), r, 1);
    TornJournal(f, r);
  }

  lemma FirstFails(svc: Service, a: Action)
    requires a.Sequence? && a.fault == Some(1)
    requires [] + Cut(Written(svc.codec, SequencedRecord(0, a)), 1) == [0x7B]
    ensures Act(svc, INITIAL, a) == Some(INITIAL.(log := Log([0x7B], []), commits := map[a.id := Sequenced(None)]))
  {
    hide Written, Cut, ReceiptAt;
    assert INITIAL.commits[a.id := Sequenced(None)] == map[a.id := Sequenced(None)];
  }

  lemma StartsEmpty(svc: Service, s: State)
    requires Replay(svc.codec, s.log.file) == Ok([])
    ensures Act(svc, s, Restarting) == Some(INITIAL.(log := Log(s.log.file, []), issued := s.issued))
  {
    hide Replay;
  }

  /** A commit that fails after one byte of its line, in a fresh service, and a restart. */
  lemma TornFirst(svc: Service, f: Formats, c: Hash, t: Timestamp) returns (run: seq<Action>, s: State)
    requires f.RoundTrip() && svc.codec == JournalCodec(f)
    ensures run == [Sequence(0, "subject", c, None, t, Some(1)), Restarting] && Execute(svc, INITIAL, run) == Some(s)
    ensures s == INITIAL.(log := Log([0x7B], []))
  {
    hide Execute, Act, Replay, Written, Cut, JournalCodec;
    var a := Sequence(0, "subject", c, None, t, Some(1));
    OneByteLeft(f, SequencedRecord(0, a));
    FirstFails(svc, a);
    ExecuteNothing(svc);
    run, s := Then(svc, [], INITIAL, a);
    StartsEmpty(svc, s);
    run, s := Then(svc, run, s, Restarting);
  }

  /** A commit that succeeds on a log that serves nothing. */
  lemma FirstReceipt(svc: Service, before: seq<Action>, s: State, c: Hash, t: Timestamp)
    returns (run: seq<Action>, s': State, receipt: Receipt)
    requires Execute(svc, INITIAL, before) == Some(s) && s.log.entries == [] && !s.poisoned && 0 !in s.commits
    requires forall message :: svc.operator.sign(message).Some?
    ensures Execute(svc, INITIAL, run) == Some(s') && run == before + [Sequence(0, "subject", c, None, t, None)]
    ensures s'.issued == s.issued + [receipt] && !s'.poisoned
    ensures s'.log.entries == [CommitRecord(0, t, "subject", c, None)]
    ensures s'.log.file == s.log.file + Written(svc.codec, s'.log.entries[0])
    ensures receipt.record == s'.log.entries[0]
    ensures receipt.treeHead.treeSize == 1 && receipt.treeHead.root == svc.hashing.leaf(c)
    ensures CurrentHeadOf(svc.hashing, s'.log.entries, svc.operator) == Some(receipt.treeHead)
  {
    hide Execute, Written;
    var a := Sequence(0, "subject", c, None, t, None);
    run, s' := Then(svc, before, s, a);
    var entries := s'.log.entries;
    assert entries == [CommitRecord(0, t, "subject", c, None)];
    assert entries[..1] == entries;
    assert Commitments(entries) == [c];
    receipt := ReceiptAt(svc.hashing, entries, 0, svc.operator).value;
  }

  /** With an operator that can sign, there is a run in which two receipts are answered for different commitments
      under the same number, each with a signed head of size one, the two over the leaf hashes of their own
      commitments; in between, after the first was answered, a start serves an empty log. */
  lemma NumberReused(svc: Service, f: Formats, c: Hash, c1: Hash, c2: Hash, t: Timestamp)
    returns (run: seq<Action>, middle: State, again: Action, end: State)
    requires f.RoundTrip() && svc.codec == JournalCodec(f) && forall message :: svc.operator.sign(message).Some?
    ensures Execute(svc, INITIAL, run) == Some(middle) && middle.log.entries == [] && |middle.issued| == 1
    ensures Execute(svc, INITIAL, run + [again]) == Some(end) && |end.issued| == 2
    ensures end.issued[0].record.seqNo == end.issued[1].record.seqNo == 0
    ensures end.issued[0].record.commitment == c1 && end.issued[1].record.commitment == c2
    ensures end.issued[0].treeHead.treeSize == end.issued[1].treeHead.treeSize == 1
    ensures end.issued[0].treeHead.root == svc.hashing.leaf(c1) && end.issued[1].treeHead.root == svc.hashing.leaf(c2)
  {
    hide Execute, Replay, Written;
    var s, receipt;
    run, s := TornFirst(svc, f, c, t);
    run, s, receipt := FirstReceipt(svc, run, s, c1, t);
    TornJournal(f, receipt.record);
    run, middle := Then(svc, run, s, Restarting);
    again := Sequence(0, "subject", c2, None, t, None);
    var all;
    all, end, receipt := FirstReceipt(svc, run, middle, c2, t);
  }
}
