/** Where everything that the handlers hold and answer comes from: over every run, each answer, head, anchor record and
    view is traced to the steps of its own request. */
module Answers {
  import opened Bits
  import opened Digests
  import opened MerkleSpec
  import opened Records
  import opened Receipts
  import opened Anchoring
  import opened Protocol
  import opened Executions
  import opened Views

  // ------------------------------------------------------------------ steps of a run

  /** Commit `id` of this process was sequenced at step `i`. */
  ghost predicate SequencedAt(run: seq<Action>, id: nat, i: nat) {
    i < |run| && run[i].Sequence? && run[i].id == id && NoRestart(run, i, |run|)
  }

  ghost predicate Done(run: seq<Action>, a: Action, i: nat) {
    i < |run| && run[i] == a && NoRestart(run, i, |run|)
  }

  /** The answer is none exactly if the write of step `i` failed, and otherwise a receipt for what that step was asked
      to commit, under the number of entries before it. */
  ghost predicate AnswerOf(svc: Service, run: seq<Action>, i: nat, answer: Option<Receipt>)
    requires i < |run| && run[i].Sequence?
  {
    var (a, n) := (run[i], LenAt(svc, run, i));
    && (answer.None? <==> a.fault.Some?)
    && (answer.Some? ==>
        && n < TWO_TO_THE_64
        && answer.value.record == CommitRecord(n, a.loggedAt, a.subject, a.commitment, a.saltRef))
  }

  /** The head that was current before step `i`. */
  ghost function HeadBefore(svc: Service, run: seq<Action>, i: nat): Option<SignedTreeHead>
    requires i <= |run|
  {
    match Execute(svc, INITIAL, run[..i])
    case None => None
    case Some(s) => CurrentHeadOf(svc.hashing, s.log.entries, svc.operator)
  }

  /** The head is the one that was current when step `a` of this process was done. */
  ghost predicate HeadFrom(svc: Service, run: seq<Action>, a: Action, head: Option<SignedTreeHead>) {
    exists i: nat :: Done(run, a, i) && HeadBefore(svc, run, i) == head
  }

  /** The record says what came of submitting the digest of a head: of the head that commit `id` took, to the
      configured authority, at the time and with the reply of its own completion. */
  ghost predicate RecordFrom(svc: Service, run: seq<Action>, id: nat, r: TsaRecord) {
    exists head: SignedTreeHead, now: Timestamp, reply: Option<seq<Byte>>, i: nat ::
      && HeadFrom(svc, run, TakeHead(id), Some(head)) && Done(run, Reply(id, now, reply), i)
      && svc.tsaUrl.Some? && r == RecordOf(svc, head, now, reply)
  }

  ghost function RecordOf(svc: Service, head: SignedTreeHead, now: Timestamp, reply: Option<seq<Byte>>): TsaRecord
    requires svc.tsaUrl.Some?
  {
    var digest := svc.sha256(svc.operator.canonicalBytes(head.logId, head.treeSize, head.timestamp, head.root));
    if reply.Some? && Binds(reply.value, digest)
    then TsaRecord(head.treeSize, digest, Anchored, svc.tsaUrl.value, reply, now, None)
    else TsaRecord(head.treeSize, digest, Unreachable, svc.tsaUrl.value, None, now, Some(Timestamp(now.secs + 60, 0)))
  }

  /** A commit is answered when its record is stored, or when there was nothing to anchor or nowhere to. */
  ghost predicate Finished(svc: Service, run: seq<Action>, id: nat) {
    || (exists i: nat :: Done(run, StoreAnchor(id), i))
    || (svc.tsaUrl.None? && exists i: nat :: Done(run, TakeHead(id), i))
    || HeadFrom(svc, run, TakeHead(id), None)
  }

  // ------------------------------------------------------------------ traces

  ghost predicate Sequencing(svc: Service, run: seq<Action>, id: nat, answer: Option<Receipt>) {
    exists i: nat :: SequencedAt(run, id, i) && AnswerOf(svc, run, i, answer)
  }

  ghost predicate CommitTraced(svc: Service, run: seq<Action>, id: nat, c: Commit) {
    && Sequencing(svc, run, id, c.answer)
    && (c.Submitting? ==> svc.tsaUrl.Some? && HeadFrom(svc, run, TakeHead(id), Some(c.head)))
    && (c.Storing? ==> RecordFrom(svc, run, id, c.record))
    && (c.Answered? ==> Finished(svc, run, id))
  }

  ghost predicate ReaderTraced(svc: Service, run: seq<Action>, rid: nat, r: Reader) {
    match r
    case HeadTaken(taken) => HeadFrom(svc, run, ReadHead(rid), taken)
    case Served(head, _) => HeadFrom(svc, run, ReadHead(rid), Some(head))
  }

  /** The stored record is that of the commit that stored last in this process. */
  ghost predicate TsaTraced(svc: Service, run: seq<Action>, tsa: Option<TsaRecord>) {
    match LastStore(run)
    case None => tsa.None?
    case Some(w) => tsa.Some? && RecordFrom(svc, run, run[w].id, tsa.value)
  }

  /** No commit of this process is forgotten, unless a handler panicked. */
  ghost predicate NoneForgotten(run: seq<Action>, s: State) {
    forall id: nat, i: nat | SequencedAt(run, id, i) :: id in s.commits || s.poisoned
  }

  ghost predicate Traced(svc: Service, run: seq<Action>, s: State) {
    && (forall id | id in s.commits :: CommitTraced(svc, run, id, s.commits[id]))
    && (forall id | id in s.commits && s.commits[id].answer.Some? :: s.commits[id].answer.value in s.issued)
    && (forall rid | rid in s.readers :: ReaderTraced(svc, run, rid, s.readers[rid]))
    && TsaTraced(svc, run, s.tsa)
    && NoneForgotten(run, s)
  }

  // ------------------------------------------------------------------ longer runs

  lemma NoRestartSnoc(run: seq<Action>, a: Action, i: nat)
    ensures NoRestart(run + [a], i, |run| + 1) <==> NoRestart(run, i, |run|) && (i <= |run| ==> !a.Restarting?)
  {
    var longer := run + [a];
    assert forall k | 0 <= k < |run| :: longer[k] == run[k];
    if NoRestart(longer, i, |run| + 1) && i <= |run| {
      assert !longer[|run|].Restarting?;
    }
  }

  lemma DoneLater(run: seq<Action>, a: Action, b: Action, i: nat)
    requires Done(run, b, i) && !a.Restarting?
    ensures Done(run + [a], b, i)
  {
    NoRestartSnoc(run, a, i);
  }

  lemma DoneNow(run: seq<Action>, a: Action)
    requires !a.Restarting?
    ensures Done(run + [a], a, |run|)
  {
  }

  lemma HeadFromLater(svc: Service, run: seq<Action>, a: Action, b: Action, head: Option<SignedTreeHead>)
    requires HeadFrom(svc, run, b, head) && !a.Restarting?
    ensures HeadFrom(svc, run + [a], b, head)
  {
    hide Execute;
    var i: nat :| Done(run, b, i) && HeadBefore(svc, run, i) == head;
    hide Done;
    DoneLater(run, a, b, i);
    PrefixOfSnoc(run, a, i);
    assert HeadBefore(svc, run + [a], i) == head;
  }

  lemma HeadFromNow(svc: Service, run: seq<Action>, a: Action, s: State)
    requires Execute(svc, INITIAL, run) == Some(s) && !a.Restarting?
    ensures HeadFrom(svc, run + [a], a, CurrentHeadOf(svc.hashing, s.log.entries, svc.operator))
  {
    hide Done, Execute, CurrentHeadOf;
    DoneNow(run, a);
    assert (run + [a])[..|run|] == run;
    assert HeadBefore(svc, run + [a], |run|) == CurrentHeadOf(svc.hashing, s.log.entries, svc.operator);
  }

  lemma RecordFromLater(svc: Service, run: seq<Action>, a: Action, id: nat, r: TsaRecord)
    requires RecordFrom(svc, run, id, r) && !a.Restarting?
    ensures RecordFrom(svc, run + [a], id, r)
  {
    hide Done, HeadFrom, RecordOf;
    var head: SignedTreeHead, now: Timestamp, reply: Option<seq<Byte>>, i: nat :|
      && HeadFrom(svc, run, TakeHead(id), Some(head)) && Done(run, Reply(id, now, reply), i)
      && svc.tsaUrl.Some? && r == RecordOf(svc, head, now, reply);
    HeadFromLater(svc, run, a, TakeHead(id), Some(head));
    DoneLater(run, a, Reply(id, now, reply), i);
  }

  lemma SequencingLater(svc: Service, run: seq<Action>, a: Action, id: nat, answer: Option<Receipt>)
    requires Sequencing(svc, run, id, answer) && !a.Restarting?
    ensures Sequencing(svc, run + [a], id, answer)
  {
    hide LenAt;
    var i: nat :| SequencedAt(run, id, i) && AnswerOf(svc, run, i, answer);
    NoRestartSnoc(run, a, i);
    LenAtPrefix(svc, run, run + [a], i);
    assert SequencedAt(run + [a], id, i) && AnswerOf(svc, run + [a], i, answer);
  }

  lemma FinishedLater(svc: Service, run: seq<Action>, a: Action, id: nat)
    requires Finished(svc, run, id) && !a.Restarting?
    ensures Finished(svc, run + [a], id)
  {
    hide Done, HeadFrom;
    if i: nat :| Done(run, StoreAnchor(id), i) {
      DoneLater(run, a, StoreAnchor(id), i);
    } else if HeadFrom(svc, run, TakeHead(id), None) {
      HeadFromLater(svc, run, a, TakeHead(id), None);
    } else {
      var i: nat :| Done(run, TakeHead(id), i);
      DoneLater(run, a, TakeHead(id), i);
    }
  }

  lemma CommitLater(svc: Service, run: seq<Action>, a: Action, id: nat, c: Commit)
    requires CommitTraced(svc, run, id, c) && !a.Restarting?
    ensures CommitTraced(svc, run + [a], id, c)
  {
    hide Sequencing, HeadFrom, RecordFrom, Finished;
    SequencingLater(svc, run, a, id, c.answer);
    match c
    case Sequenced(_) =>
    case Submitting(_, head) => HeadFromLater(svc, run, a, TakeHead(id), Some(head));
    case Storing(_, record) => RecordFromLater(svc, run, a, id, record);
    case Answered(_) => FinishedLater(svc, run, a, id);
  }

  lemma ReaderLater(svc: Service, run: seq<Action>, a: Action, rid: nat, r: Reader)
    requires ReaderTraced(svc, run, rid, r) && !a.Restarting?
    ensures ReaderTraced(svc, run + [a], rid, r)
  {
    hide HeadFrom;
    match r
    case HeadTaken(taken) => HeadFromLater(svc, run, a, ReadHead(rid), taken);
    case Served(head, _) => HeadFromLater(svc, run, a, ReadHead(rid), Some(head));
  }

  // ------------------------------------------------------------------ every step

  lemma SequencedNow(svc: Service, run: seq<Action>, s: State, a: Action)
    requires Execute(svc, INITIAL, run) == Some(s) && a.Sequence? && SequenceStep(svc, s, a).Some?
    ensures var s' := SequenceStep(svc, s, a).value;
            && SequencedAt(run + [a], a.id, |run|)
            && (s'.poisoned || (a.id in s'.commits && Sequencing(svc, run + [a], a.id, s'.commits[a.id].answer)))
  {
    hide Execute, ReceiptAt;
    var s' := SequenceStep(svc, s, a).value;
    assert SequencedAt(run + [a], a.id, |run|);
    assert (run + [a])[..|run|] == run;
    ReceiptIsOfRecord(svc, s'.log.entries, |s.log.entries|);
    if !s'.poisoned {
      assert AnswerOf(svc, run + [a], |run|, s'.commits[a.id].answer);
    }
  }

  lemma SequenceTraced(svc: Service, run: seq<Action>, s: State, a: Action, s': State)
    requires Execute(svc, INITIAL, run) == Some(s) && Traced(svc, run, s)
    requires a.Sequence? && SequenceStep(svc, s, a) == Some(s')
    ensures forall id | id in s'.commits :: CommitTraced(svc, run + [a], id, s'.commits[id])
    ensures forall id | id in s'.commits && s'.commits[id].answer.Some? :: s'.commits[id].answer.value in s'.issued
  {
    hide Execute, ReceiptAt, Sequencing, HeadFrom, RecordFrom, Finished, ReaderTraced, TsaTraced, NoneForgotten;
    SequencedNow(svc, run, s, a);
    forall id | id in s'.commits ensures CommitTraced(svc, run + [a], id, s'.commits[id]) {
      if id in s.commits {
        CommitLater(svc, run, a, id, s.commits[id]);
      }
    }
  }

  lemma TakeHeadTraced(svc: Service, run: seq<Action>, s: State, a: Action, s': State)
    requires a.TakeHead? && a.id in s.commits && CommitTraced(svc, run, a.id, s.commits[a.id])
    requires Execute(svc, INITIAL, run) == Some(s) && TakeHeadStep(svc, s, a.id) == Some(s')
    ensures a.id in s'.commits && CommitTraced(svc, run + [a], a.id, s'.commits[a.id])
    ensures s'.commits[a.id].answer == s.commits[a.id].answer
  {
    hide Execute, CurrentHeadOf, Sequencing, HeadFrom, RecordFrom, Done;
    SequencingLater(svc, run, a, a.id, s.commits[a.id].answer);
    HeadFromNow(svc, run, a, s);
    DoneNow(run, a);
    assert a == TakeHead(a.id);
  }

  lemma ReplyTraced(svc: Service, run: seq<Action>, s: State, a: Action, s': State)
    requires a.Reply? && a.id in s.commits && CommitTraced(svc, run, a.id, s.commits[a.id])
    requires ReplyStep(svc, s, a) == Some(s')
    ensures a.id in s'.commits && CommitTraced(svc, run + [a], a.id, s'.commits[a.id])
    ensures s'.commits[a.id].answer == s.commits[a.id].answer
  {
    hide Sequencing, HeadFrom, Finished, Done;
    var head := s.commits[a.id].head;
    SequencingLater(svc, run, a, a.id, s.commits[a.id].answer);
    HeadFromLater(svc, run, a, TakeHead(a.id), Some(head));
    DoneNow(run, a);
    RecordIsOutcome(svc, head, a.now, a.reply);
    assert RecordFrom(svc, run + [a], a.id, s'.commits[a.id].record);
  }

  lemma RecordIsOutcome(svc: Service, head: SignedTreeHead, now: Timestamp, reply: Option<seq<Byte>>)
    requires svc.tsaUrl.Some?
    ensures Outcome(svc.Digest(head), svc.tsaUrl.value, now, reply).(treeSize := head.treeSize)
         == RecordOf(svc, head, now, reply)
  {
    hide Binds;
  }

  lemma StoreTraced(svc: Service, run: seq<Action>, s: State, id: nat, s': State)
    requires id in s.commits && CommitTraced(svc, run, id, s.commits[id]) && StoreAnchorStep(s, id) == Some(s')
    ensures id in s'.commits && CommitTraced(svc, run + [StoreAnchor(id)], id, s'.commits[id])
    ensures s'.commits[id].answer == s.commits[id].answer
    ensures TsaTraced(svc, run + [StoreAnchor(id)], s'.tsa)
  {
    hide Sequencing, HeadFrom, RecordFrom, Done;
    SequencingLater(svc, run, StoreAnchor(id), id, s.commits[id].answer);
    DoneNow(run, StoreAnchor(id));
    LastStoreSnoc(run, StoreAnchor(id));
    RecordFromLater(svc, run, StoreAnchor(id), id, s.commits[id].record);
  }

  /** A step concerns one commit at most, and leaves the others alone. */
  lemma OthersAlone(svc: Service, s: State, a: Action, s': State)
    requires Act(svc, s, a) == Some(s') && !a.Restarting?
    ensures s.commits.Keys <= s'.commits.Keys
    ensures forall id | id in s.commits && !Concerns(a, id) :: s'.commits[id] == s.commits[id]
    ensures forall id | id in s'.commits && !Concerns(a, id) :: id in s.commits
  {
    hide CurrentHeadOf, ReceiptAt, Outcome, AnchorView;
  }

  lemma NothingTakenBack(svc: Service, s: State, a: Action, s': State)
    requires Act(svc, s, a) == Some(s') && !a.Restarting?
    ensures s.poisoned ==> s'.poisoned
    ensures s.issued <= s'.issued
  {
    hide CurrentHeadOf, ReceiptAt, Outcome, AnchorView;
  }

  /** It concerns one reader at most, and only storing changes the stored record. */
  lemma ReadersAlone(svc: Service, s: State, a: Action, s': State)
    requires Act(svc, s, a) == Some(s') && !a.Restarting?
    ensures forall rid | rid in s.readers && a != ReadHead(rid) && a != ReadAnchor(rid) ::
              rid in s'.readers && s'.readers[rid] == s.readers[rid]
    ensures forall rid | rid in s'.readers && a != ReadHead(rid) :: rid in s.readers
    ensures !a.StoreAnchor? ==> s'.tsa == s.tsa
  {
    hide CurrentHeadOf, ReceiptAt, Outcome, AnchorView;
  }

  predicate Concerns(a: Action, id: nat) {
    match a
    case Sequence(n, _, _, _, _, _) => n == id
    case TakeHead(n) => n == id
    case Reply(n, _, _) => n == id
    case StoreAnchor(n) => n == id
    case _ => false
  }

  lemma CommitsTraced(svc: Service, run: seq<Action>, s: State, a: Action, s': State)
    requires Execute(svc, INITIAL, run) == Some(s) && Traced(svc, run, s)
    requires Act(svc, s, a) == Some(s') && !a.Restarting?
    ensures forall id | id in s'.commits :: CommitTraced(svc, run + [a], id, s'.commits[id])
    ensures forall id | id in s'.commits && s'.commits[id].answer.Some? :: s'.commits[id].answer.value in s'.issued
  {
    hide Execute, CommitTraced, ReaderTraced, TsaTraced, NoneForgotten;
    OthersAlone(svc, s, a, s');
    NothingTakenBack(svc, s, a, s');
    hide SequenceStep, TakeHeadStep, ReplyStep, StoreAnchorStep, ReadHeadStep, ReadAnchorStep;
    if a.Sequence? {
      SequenceTraced(svc, run, s, a, s');
      return;
    }
    if a.TakeHead? || a.Reply? || a.StoreAnchor? {
      InFlight(svc, s, a);
    }
    match a {
      case TakeHead(_) => TakeHeadTraced(svc, run, s, a, s');
      case Reply(_, _, _) => ReplyTraced(svc, run, s, a, s');
      case StoreAnchor(id) => StoreTraced(svc, run, s, id, s');
      case _ =>
    }
    forall id | id in s'.commits ensures CommitTraced(svc, run + [a], id, s'.commits[id]) {
      if !Concerns(a, id) {
        CommitLater(svc, run, a, id, s.commits[id]);
      }
    }
  }

  lemma InFlight(svc: Service, s: State, a: Action)
    requires (a.TakeHead? || a.Reply? || a.StoreAnchor?) && Act(svc, s, a).Some?
    ensures a.id in s.commits
  {
  }

  lemma ReadersTraced(svc: Service, run: seq<Action>, s: State, a: Action, s': State)
    requires Execute(svc, INITIAL, run) == Some(s) && Traced(svc, run, s)
    requires Act(svc, s, a) == Some(s') && !a.Restarting?
    ensures forall rid | rid in s'.readers :: ReaderTraced(svc, run + [a], rid, s'.readers[rid])
  {
    hide Execute, CommitTraced, TsaTraced, NoneForgotten, HeadFrom, CurrentHeadOf;
    OthersAlone(svc, s, a, s');
    NothingTakenBack(svc, s, a, s');
    ReadersAlone(svc, s, a, s');
    forall rid | rid in s'.readers ensures ReaderTraced(svc, run + [a], rid, s'.readers[rid]) {
      if a == ReadHead(rid) {
        HeadFromNow(svc, run, a, s);
      } else {
        ReaderLater(svc, run, a, rid, s.readers[rid]);
      }
    }
  }

  lemma OthersTraced(svc: Service, run: seq<Action>, s: State, a: Action, s': State)
    requires Execute(svc, INITIAL, run) == Some(s) && Traced(svc, run, s)
    requires Act(svc, s, a) == Some(s') && !a.Restarting?
    ensures TsaTraced(svc, run + [a], s'.tsa) && NoneForgotten(run + [a], s')
  {
    hide Execute, ReaderTraced, RecordFrom, Act, CommitTraced;
    OthersAlone(svc, s, a, s');
    NothingTakenBack(svc, s, a, s');
    ReadersAlone(svc, s, a, s');
    if a.StoreAnchor? {
      StoreStep(svc, run, s, a, s');
    } else {
      LastStoreSnoc(run, a);
      if LastStore(run).Some? {
        RecordFromLater(svc, run, a, run[LastStore(run).value].id, s.tsa.value);
      }
    }
    forall id: nat, i: nat | SequencedAt(run + [a], id, i) ensures id in s'.commits || s'.poisoned {
      if i < |run| {
        NoRestartSnoc(run, a, i);
        assert SequencedAt(run, id, i);
      } else {
        SequenceActs(svc, s, a);
        SequencedNow(svc, run, s, a);
      }
    }
  }

  lemma StoreStep(svc: Service, run: seq<Action>, s: State, a: Action, s': State)
    requires a.StoreAnchor? && Act(svc, s, a) == Some(s')
    requires forall id | id in s.commits :: CommitTraced(svc, run, id, s.commits[id])
    ensures TsaTraced(svc, run + [a], s'.tsa)
  {
    hide CommitTraced, TsaTraced;
    StoreTraced(svc, run, s, a.id, s');
  }

  lemma StartTraced(svc: Service)
    ensures Execute(svc, INITIAL, []) == Some(INITIAL) && Traced(svc, [], INITIAL)
  {
  }

  lemma RestartTraced(svc: Service, run: seq<Action>, s: State, s': State)
    requires Act(svc, s, Restarting) == Some(s')
    ensures Traced(svc, run + [Restarting], s')
  {
    LastStoreSnoc(run, Restarting);
    forall id: nat, i: nat ensures !SequencedAt(run + [Restarting], id, i) {
      NoRestartSnoc(run, Restarting, i);
    }
  }

  /** Every answer belongs to its own request. In every run, each commit of the running process, from its sequencing to
      its end, has as its answer none exactly if its own write failed, and otherwise a receipt, issued in this run,
      of the record that its own request asked for, under the number of entries before it; the head it submits is
      the one current when it took it, the record it stores is what its own reply to that head's digest comes to,
      and each head read is the one current when it was read. */
  lemma {:induction false} RunTraced(svc: Service, run: seq<Action>)
    requires Runs(svc, run)
    ensures Traced(svc, run, Execute(svc, INITIAL, run).value)
    decreases |run|
  {
    hide Act, Execute, CommitTraced, ReaderTraced, TsaTraced, NoneForgotten;
    if run == [] {
      StartTraced(svc);
    } else {
      var (init, a) := (run[..|run| - 1], run[|run| - 1]);
      assert run == init + [a];
      RunSnoc(svc, init, a);
      RunTraced(svc, init);
      var (s, s') := (Execute(svc, INITIAL, init).value, Execute(svc, INITIAL, run).value);
      if a.Restarting? {
        RestartTraced(svc, init, s, s');
      } else {
        CommitsTraced(svc, init, s, a, s');
        ReadersTraced(svc, init, s, a, s');
        OthersTraced(svc, init, s, a, s');
      }
    }
  }

  /** Numbers of requests are not taken twice in one process, so that the step of a commit is unique. */
  lemma {:induction false} SequencedOnce(svc: Service, run: seq<Action>, id: nat, i: nat, j: nat)
    requires Runs(svc, run) && SequencedAt(run, id, i) && SequencedAt(run, id, j)
    ensures i == j
    decreases |run|
  {
    hide Act, Execute;
    var (init, a) := (run[..|run| - 1], run[|run| - 1]);
    assert run == init + [a];
    RunSnoc(svc, init, a);
    NoRestartSnoc(init, a, i);
    NoRestartSnoc(init, a, j);
    RunTraced(svc, init);
    if i < |init| && j < |init| {
      SequencedOnce(svc, init, id, i, j);
    } else if i != j {
      var k := if i < |init| then i else j;
      assert SequencedAt(init, id, k);
      FreshId(svc, Execute(svc, INITIAL, init).value, a);
    }
  }

  lemma FreshId(svc: Service, s: State, a: Action)
    requires a.Sequence? && Act(svc, s, a).Some?
    ensures a.id !in s.commits && !s.poisoned
  {
  }

  /** The answer of a commit that has ended, told from its request alone: none if the write failed, and otherwise the
      receipt that the log derives for the entry that the request made. */
  lemma AnswerExactly(svc: Service, run: seq<Action>, id: nat, i: nat)
    requires Runs(svc, run) && SequencedAt(run, id, i) && id in Execute(svc, INITIAL, run).value.commits
    ensures var (s, a, n) := (Execute(svc, INITIAL, run).value, run[i], LenAt(svc, run, i));
            var answer := s.commits[id].answer;
            && (answer.None? <==> a.fault.Some?)
            && (answer.Some? ==>
                && n < |s.log.entries| && n < TWO_TO_THE_64
                && s.log.entries[n] == CommitRecord(n, a.loggedAt, a.subject, a.commitment, a.saltRef)
                && answer == ReceiptAt(svc.hashing, s.log.entries, n, svc.operator))
  {
    hide Execute, ReaderTraced, TsaTraced, NoneForgotten, HeadFrom, RecordFrom, Finished, LenAt;
    var s := Execute(svc, INITIAL, run).value;
    RunTraced(svc, run);
    Safety(svc, run);
    var c := s.commits[id];
    assert CommitTraced(svc, run, id, c) && CommitFits(svc, s.log.entries, c);
    var j: nat :| SequencedAt(run, id, j) && AnswerOf(svc, run, j, c.answer);
    SequencedOnce(svc, run, id, i, j);
    ReceiptIsOfRecord(svc, s.log.entries, LenAt(svc, run, i));
  }

  // ------------------------------------------------------------------ panics

  /** A handler panicked in this process: its entry is in the log, and its receipt could not be signed. */
  ghost predicate PanickedAt(svc: Service, run: seq<Action>, i: nat) {
    && i < |run| && Grows(run[i]) && NoRestart(run, i, |run|)
    && HeadBefore(svc, run, i + 1).None?
  }

  /** The store lock is poisoned exactly if a handler of this process panicked under it. */
  lemma {:induction false} PoisonedExactly(svc: Service, run: seq<Action>)
    requires Runs(svc, run)
    ensures Execute(svc, INITIAL, run).value.poisoned <==> exists i: nat :: PanickedAt(svc, run, i)
    decreases |run|
  {
    hide Act, Execute, HeadBefore;
    if run == [] {
      ExecuteNothing(svc);
    } else {
      var (init, a) := (run[..|run| - 1], run[|run| - 1]);
      assert run == init + [a];
      RunSnoc(svc, init, a);
      PoisonedExactly(svc, init);
      var (s, s') := (Execute(svc, INITIAL, init).value, Execute(svc, INITIAL, run).value);
      PanicStep(svc, s, a, s');
      HeadAfter(svc, run, s');
      PanickedSnoc(svc, init, a);
    }
  }

  lemma PanicStep(svc: Service, s: State, a: Action, s': State)
    requires Act(svc, s, a) == Some(s')
    ensures s'.poisoned <==>
              if a.Restarting? then false
              else s.poisoned || (Grows(a) && CurrentHeadOf(svc.hashing, s'.log.entries, svc.operator).None?)
  {
    if a.Sequence? {
      hide Mth, AuditPath;
    } else {
      hide CurrentHeadOf, Outcome, AnchorView;
    }
  }

  lemma HeadAfter(svc: Service, run: seq<Action>, s: State)
    requires Execute(svc, INITIAL, run) == Some(s)
    ensures HeadBefore(svc, run, |run|) == CurrentHeadOf(svc.hashing, s.log.entries, svc.operator)
  {
    assert run[..|run|] == run;
  }

  lemma PanickedSnoc(svc: Service, run: seq<Action>, a: Action)
    ensures (exists i: nat :: PanickedAt(svc, run + [a], i))
            <==> !a.Restarting? && ((exists i: nat :: PanickedAt(svc, run, i))
                                    || (Grows(a) && HeadBefore(svc, run + [a], |run| + 1).None?))
  {
    hide Execute;
    var longer := run + [a];
    forall i: nat | i < |run|
      ensures PanickedAt(svc, longer, i) <==> PanickedAt(svc, run, i) && !a.Restarting?
    {
      NoRestartSnoc(run, a, i);
      PrefixOfSnoc(run, a, i + 1);
    }
    NoRestartSnoc(run, a, |run|);
    assert PanickedAt(svc, longer, |run|) <==> Grows(a) && !a.Restarting? && HeadBefore(svc, longer, |run| + 1).None?;
    if i: nat :| PanickedAt(svc, run, i) {
      assert !a.Restarting? ==> PanickedAt(svc, longer, i);
    }
  }

  // ------------------------------------------------------------------ progress

  /** Handlers never block each other: without a panic any new request can begin and any begun one can go on, whatever
      the authority replies and whatever else is in flight. */
  lemma Progress(svc: Service, run: seq<Action>, id: nat, rid: nat, a: Action)
    requires Runs(svc, run) && !Execute(svc, INITIAL, run).value.poisoned
    requires (a.Sequence? || a.Reply?) && a.id == id
    ensures var s := Execute(svc, INITIAL, run).value;
            && (id !in s.commits && |s.log.entries| + 1 < TWO_TO_THE_64 && a.Sequence? ==> Act(svc, s, a).Some?)
            && (id in s.commits && s.commits[id].Sequenced? ==> Act(svc, s, TakeHead(id)).Some?)
            && (id in s.commits && s.commits[id].Submitting? && a.Reply? ==> Act(svc, s, a).Some?)
            && (id in s.commits && s.commits[id].Storing? ==> Act(svc, s, StoreAnchor(id)).Some?)
            && (rid !in s.readers ==> Act(svc, s, ReadHead(rid)).Some?)
            && (rid in s.readers && s.readers[rid].HeadTaken? && s.readers[rid].taken.Some? ==>
                Act(svc, s, ReadAnchor(rid)).Some?)
  {
    hide Execute, ReceiptAt, CurrentHeadOf, Outcome, AnchorView;
    hide Sequencing, HeadFrom, RecordFrom, Finished, ReaderTraced, TsaTraced, NoneForgotten;
    RunTraced(svc, run);
  }

  /** After a panic no commit begins, no head is read, and no head is taken for an authority, until a restart. */
  lemma PoisonBlocks(svc: Service, s: State, a: Action)
    requires s.poisoned && (a.Sequence? || a.ReadHead? || (a.TakeHead? && svc.tsaUrl.Some?))
    ensures Act(svc, s, a).None?
  {
  }

  // ------------------------------------------------------------------ views

  /** A view that shows a submission shows, unchanged, the record of the commit that had stored last when the view was
      read, and that submission was for a head of the size shown. */
  lemma SubmissionTraced(svc: Service, run: seq<Action>, rid: nat) returns (q: nat, w: nat)
    requires IsServed(svc, run, rid) && ServedTo(svc, run, rid).view.Submission?
    ensures w < q < |run| && run[q] == ReadAnchor(rid) && run[w].StoreAnchor? && LastStore(run[..q]) == Some(w)
    ensures var (r, head) := (ServedTo(svc, run, rid).view.record, ServedTo(svc, run, rid).head);
            RecordFrom(svc, run[..q], run[w].id, r) && r.treeSize == head.treeSize
  {
    hide Execute, CommitTraced, ReaderTraced, NoneForgotten, RecordFrom, LenAt, AnchorView;
    var p;
    p, q := NotConfiguredExactly(svc, run, rid);
    RunTraced(svc, run[..q]);
    var tsa := Execute(svc, INITIAL, run[..q]).value.tsa;
    ViewExactly(tsa, LenAt(svc, run, p), ServedTo(svc, run, rid).view.record, 0);
    w := LastStore(run[..q]).value;
  }
}
