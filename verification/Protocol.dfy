/** The request handlers as interleaved atomic steps over the two mutexes: a commit takes the store lock
    twice with a network submission in between and then the anchor lock, a head reader takes the store
    lock and then the anchor lock, and any number of them run at once. */
module Protocol {
  import opened Bits
  import opened Digests
  import opened Records
  import opened Journal
  import opened Restart
  import opened Store
  import opened Receipts
  import opened TsaResponse
  import opened Anchoring

  /** What does not change while the service runs. */
  datatype Service = Service(
    codec: Codec, hashing: Hashing, operator: Operator, tsaUrl: Option<string>, sha256: seq<Byte> -> Hash)
  {
    /** The digest a head is anchored under: the hash of its canonical bytes. */
    function Digest(head: SignedTreeHead): Hash {
      sha256(operator.canonicalBytes(head.logId, head.treeSize, head.timestamp, head.root))
    }
  }

  /** Where a commit handler is. The answer is its receipt, or none after a journal error. */
  datatype Commit =
    | Sequenced(answer: Option<Receipt>)
    | Submitting(answer: Option<Receipt>, head: SignedTreeHead)
    | Storing(answer: Option<Receipt>, record: TsaRecord)
    | Answered(answer: Option<Receipt>)

  /** Where a head reader is. */
  datatype Reader =
    | HeadTaken(taken: Option<SignedTreeHead>)
    | Served(head: SignedTreeHead, view: View)

  datatype State = State(
    log: Log,
    tsa: Option<TsaRecord>,
    commits: map<nat, Commit>,
    readers: map<nat, Reader>,
    /** A handler panicked while it held the store lock. */
    poisoned: bool,
    /** Every receipt ever answered, oldest first, over all restarts. */
    issued: seq<Receipt>)

  datatype Action =
    | Sequence(
        id: nat, subject: string, commitment: Hash, saltRef: Option<U64>, loggedAt: Timestamp, fault: Option<nat>)
    | TakeHead(id: nat)
    | Reply(id: nat, now: Timestamp, reply: Option<seq<Byte>>)
    | StoreAnchor(id: nat)
    | ReadHead(rid: nat)
    | ReadAnchor(rid: nat)
    | Restarting

  const INITIAL: State := State(Log([], []), None, map[], map[], false, [])

  // ------------------------------------------------------------------ the steps

  /** The record of a sequencing step when the log has `n` entries. */
  function SequencedRecord(n: U64, a: Action): CommitRecord
    requires a.Sequence?
  {
    CommitRecord(n, a.loggedAt, a.subject, a.commitment, a.saltRef)
  }

  /** First store lock of a commit: append, and derive the receipt. A failed write leaves what reached the
      file; a receipt that cannot be signed is a panic under the lock. */
  function SequenceStep(svc: Service, s: State, a: Action): Option<State>
    requires a.Sequence?
  {
    if s.poisoned || a.id in s.commits || |s.log.entries| + 1 >= TWO_TO_THE_64 then None
    else
      var record := SequencedRecord(|s.log.entries|, a);
      var line := Written(svc.codec, record);
      match a.fault
      case Some(n) =>
        Some(s.(log := Log(s.log.file + Cut(line, n), s.log.entries), commits := s.commits[a.id := Sequenced(None)]))
      case None =>
        var log := Log(s.log.file + line, s.log.entries + [record]);
        match ReceiptAt(svc.hashing, log.entries, record.seqNo, svc.operator)
        case None => Some(s.(log := log, poisoned := true))
        case Some(receipt) =>
          Some(s.(log := log, commits := s.commits[a.id := Sequenced(Some(receipt))], issued := s.issued + [receipt]))
  }

  /** Second store lock: the head to anchor is whatever is current by now, after a failed append too. */
  function TakeHeadStep(svc: Service, s: State, id: nat): Option<State> {
    if id !in s.commits || !s.commits[id].Sequenced? then None
    else
      var answer := s.commits[id].answer;
      if svc.tsaUrl.None? then Some(s.(commits := s.commits[id := Answered(answer)]))
      else if s.poisoned then None
      else
        match CurrentHeadOf(svc.hashing, s.log.entries, svc.operator)
        case None => Some(s.(commits := s.commits[id := Answered(answer)]))
        case Some(head) => Some(s.(commits := s.commits[id := Submitting(answer, head)]))
  }

  /** The submission completes, with a reply or without. No lock is held. */
  ghost function ReplyStep(svc: Service, s: State, a: Action): Option<State>
    requires a.Reply?
  {
    if a.id !in s.commits || !s.commits[a.id].Submitting? || svc.tsaUrl.None? then None
    else
      var c := s.commits[a.id];
      var record := Outcome(svc.Digest(c.head), svc.tsaUrl.value, a.now, a.reply).(treeSize := c.head.treeSize);
      Some(s.(commits := s.commits[a.id := Storing(c.answer, record)]))
  }

  /** The anchor lock: the record of the submission that finished last wins, whatever its size. */
  function StoreAnchorStep(s: State, id: nat): Option<State> {
    if id !in s.commits || !s.commits[id].Storing? then None
    else Some(s.(tsa := Some(s.commits[id].record), commits := s.commits[id := Answered(s.commits[id].answer)]))
  }

  function ReadHeadStep(svc: Service, s: State, rid: nat): Option<State> {
    if s.poisoned || rid in s.readers then None
    else Some(s.(readers := s.readers[rid := HeadTaken(CurrentHeadOf(svc.hashing, s.log.entries, svc.operator))]))
  }

  function ReadAnchorStep(s: State, rid: nat): Option<State> {
    if rid !in s.readers || !s.readers[rid].HeadTaken? || s.readers[rid].taken.None? then None
    else
      var head := s.readers[rid].taken.value;
      Some(s.(readers := s.readers[rid := Served(head, AnchorView(s.tsa, head.treeSize))]))
  }

  /** A new process on the same journal: nothing in memory survives. */
  function RestartStep(svc: Service, s: State): Option<State> {
    match Replay(svc.codec, s.log.file)
    case Err(_) => None
    case Ok(entries) => Some(State(Log(s.log.file, entries), None, map[], map[], false, s.issued))
  }

  /** One atomic step; none if it is not enabled. */
  ghost function Act(svc: Service, s: State, a: Action): Option<State> {
    match a
    case Sequence(_, _, _, _, _, _) => SequenceStep(svc, s, a)
    case TakeHead(id) => TakeHeadStep(svc, s, id)
    case Reply(_, _, _) => ReplyStep(svc, s, a)
    case StoreAnchor(id) => StoreAnchorStep(s, id)
    case ReadHead(rid) => ReadHeadStep(svc, s, rid)
    case ReadAnchor(rid) => ReadAnchorStep(s, rid)
    case Restarting => RestartStep(svc, s)
  }

  ghost function Execute(svc: Service, s: State, actions: seq<Action>): Option<State>
    decreases |actions|
  {
    if actions == [] then Some(s)
    else
      match Act(svc, s, actions[0])
      case None => None
      case Some(s') => Execute(svc, s', actions[1..])
  }

  /** The first critical section of a commit on the store itself: append, and derive the receipt from the
      cached levels. It takes the store to the state that the sequencing step says. */
  method CommitLocked(svc: Service, store: LogStore, a: Action, ghost s: State)
    returns (answer: Option<Receipt>, panicked: bool)
    requires store.Valid() && store.journal != null
    requires store.codec == svc.codec && store.tree.hashing == svc.hashing
    requires s.log == Log(store.journal.bytes, store.entries)
    requires a.Sequence? && SequenceStep(svc, s, a).Some?
    modifies store`entries, store.tree, store.journal
    ensures store.Valid() && store.journal == old(store.journal)
    ensures var after := SequenceStep(svc, s, a).value;
            && Log(store.journal.bytes, store.entries) == after.log
            && (panicked <==> after.poisoned)
            && (!panicked ==> after.commits[a.id] == Sequenced(answer))
    ensures a.fault.Some? ==> !panicked && answer.None?
    ensures a.fault.None? && !panicked ==>
              && answer.Some? && |old(store.entries)| < TWO_TO_THE_64
              && answer.value.record
                 == CommitRecord(|old(store.entries)|, a.loggedAt, a.subject, a.commitment, a.saltRef)
  {
    hide ReceiptAt, Written, InSequence;
    var outcome := store.Append(a.subject, a.commitment, a.saltRef, a.loggedAt, a.fault);
    if outcome.Err? {
      return None, false;
    }
    answer := ReceiptOf(store, outcome.value.seqNo, svc.operator);
    panicked := answer.None?;
    ReceiptIsOfRecord(svc, store.entries, outcome.value.seqNo);
  }

  // ------------------------------------------------------------------ the invariant

  /** The head is the unique head of its size. */
  predicate IsHead(svc: Service, entries: seq<CommitRecord>, head: SignedTreeHead) {
    1 <= head.treeSize <= |entries| && HeadAt(svc.hashing, entries, head.treeSize, svc.operator) == Some(head)
  }

  /** The record carries the digest of the unique head of its size, and tells the truth about its response. */
  ghost predicate Fits(svc: Service, entries: seq<CommitRecord>, r: TsaRecord) {
    && 1 <= r.treeSize <= |entries| && Honest(r)
    && HeadAt(svc.hashing, entries, r.treeSize, svc.operator).Some?
    && r.digest == svc.Digest(HeadAt(svc.hashing, entries, r.treeSize, svc.operator).value)
  }

  /** The receipt is the one that would be derived for its entry now. */
  predicate StillServed(svc: Service, entries: seq<CommitRecord>, receipt: Receipt) {
    ReceiptAt(svc.hashing, entries, receipt.record.seqNo, svc.operator) == Some(receipt)
  }

  ghost predicate CommitFits(svc: Service, entries: seq<CommitRecord>, c: Commit) {
    && (c.answer.Some? ==> StillServed(svc, entries, c.answer.value))
    && (c.Submitting? ==> IsHead(svc, entries, c.head))
    && (c.Storing? ==> Fits(svc, entries, c.record))
  }

  /** What a reader is shown: a head of this log; and, unless the view says `stale` or `not-configured`, a
      record of exactly this head, under its digest, whose response, if any, contains that digest. */
  ghost predicate ReaderFits(svc: Service, entries: seq<CommitRecord>, r: Reader) {
    match r
    case HeadTaken(taken) => taken.Some? ==> IsHead(svc, entries, taken.value)
    case Served(head, view) =>
      && IsHead(svc, entries, head)
      && (view.Submission? ==>
          && Honest(view.record) && view.record.treeSize == head.treeSize
          && view.record.digest == svc.Digest(head))
      && (view.Stale? ==> view.anchoredTreeSize != head.treeSize && 1 <= view.anchoredTreeSize <= |entries|)
  }

  ghost predicate Inv(svc: Service, s: State) {
    && InSequence(s.log.entries)
    && (s.tsa.Some? ==> Fits(svc, s.log.entries, s.tsa.value))
    && (forall id | id in s.commits :: CommitFits(svc, s.log.entries, s.commits[id]))
    && (forall rid | rid in s.readers :: ReaderFits(svc, s.log.entries, s.readers[rid]))
  }

  /** All of it is kept when the log grows. */
  lemma FitsLater(svc: Service, entries: seq<CommitRecord>, later: seq<CommitRecord>)
    requires entries <= later
    ensures forall head | IsHead(svc, entries, head) :: IsHead(svc, later, head)
    ensures forall r | Fits(svc, entries, r) :: Fits(svc, later, r)
    ensures forall receipt | StillServed(svc, entries, receipt) :: StillServed(svc, later, receipt)
    ensures forall c | CommitFits(svc, entries, c) :: CommitFits(svc, later, c)
    ensures forall r | ReaderFits(svc, entries, r) :: ReaderFits(svc, later, r)
  {
    forall n: nat | 1 <= n <= |entries|
      ensures HeadAt(svc.hashing, later, n, svc.operator) == HeadAt(svc.hashing, entries, n, svc.operator)
    {
      assert later[..n] == entries[..n];
    }
    forall receipt | StillServed(svc, entries, receipt) ensures StillServed(svc, later, receipt) {
      ReceiptPermanent(svc.hashing, entries, later, receipt.record.seqNo, svc.operator);
    }
  }

  lemma CurrentIsHead(svc: Service, entries: seq<CommitRecord>)
    ensures var head := CurrentHeadOf(svc.hashing, entries, svc.operator);
            head.Some? ==> IsHead(svc, entries, head.value)
  {
  }

  lemma SequenceKeeps(svc: Service, s: State, a: Action)
    requires a.Sequence? && Inv(svc, s) && SequenceStep(svc, s, a).Some?
    ensures Inv(svc, SequenceStep(svc, s, a).value)
    ensures s.log.entries <= SequenceStep(svc, s, a).value.log.entries
  {
    hide ReceiptAt, IsHead, Fits, Written;
    FitsLater(svc, s.log.entries, SequenceStep(svc, s, a).value.log.entries);
    ReceiptIsOfRecord(svc, SequenceStep(svc, s, a).value.log.entries, |s.log.entries|);
  }

  lemma ReceiptIsOfRecord(svc: Service, entries: seq<CommitRecord>, i: nat)
    ensures var r := ReceiptAt(svc.hashing, entries, i, svc.operator);
            r.Some? ==> i < |entries| && r.value.record == entries[i]
  {
  }

  lemma ReplyKeeps(svc: Service, s: State, a: Action)
    requires a.Reply? && Inv(svc, s) && ReplyStep(svc, s, a).Some?
    ensures Inv(svc, ReplyStep(svc, s, a).value)
  {
    hide Outcome, HeadAt, StillServed;
    var head := s.commits[a.id].head;
    assert CommitFits(svc, s.log.entries, s.commits[a.id]);
    OutcomeHonest(svc.Digest(head), svc.tsaUrl.value, a.now, a.reply);
    HonestAtAnySize(Outcome(svc.Digest(head), svc.tsaUrl.value, a.now, a.reply), head.treeSize);
  }

  lemma HonestAtAnySize(r: TsaRecord, n: nat)
    requires Honest(r)
    ensures Honest(r.(treeSize := n))
  {
  }

  lemma ReadAnchorKeeps(svc: Service, s: State, rid: nat)
    requires Inv(svc, s) && ReadAnchorStep(s, rid).Some?
    ensures Inv(svc, ReadAnchorStep(s, rid).value)
  {
  }

  lemma RestartKeeps(svc: Service, s: State)
    requires RestartStep(svc, s).Some?
    ensures Inv(svc, RestartStep(svc, s).value)
  {
    hide Replay;
    ReplayExact(svc.codec, s.log.file);
  }

  lemma ActKeeps(svc: Service, s: State, a: Action)
    requires Inv(svc, s) && Act(svc, s, a).Some?
    ensures Inv(svc, Act(svc, s, a).value)
    ensures !a.Restarting? ==> s.log.entries <= Act(svc, s, a).value.log.entries
  {
    hide IsHead, Fits, StillServed, CurrentHeadOf, SequenceStep, ReplyStep, ReadAnchorStep, RestartStep, InSequence;
    match a
    case Sequence(_, _, _, _, _, _) => SequenceKeeps(svc, s, a);
    case TakeHead(id) =>
      CurrentIsHead(svc, s.log.entries);
      assert CommitFits(svc, s.log.entries, s.commits[id]);
    case Reply(_, _, _) =>
      ReplyKeeps(svc, s, a);
      ReplyFrame(svc, s, a);
    case StoreAnchor(id) => assert CommitFits(svc, s.log.entries, s.commits[id]);
    case ReadHead(rid) => CurrentIsHead(svc, s.log.entries);
    case ReadAnchor(rid) =>
      ReadAnchorKeeps(svc, s, rid);
      ReadAnchorFrame(s, rid);
    case Restarting => RestartKeeps(svc, s);
  }

  lemma ReplyFrame(svc: Service, s: State, a: Action)
    requires a.Reply? && ReplyStep(svc, s, a).Some?
    ensures ReplyStep(svc, s, a).value.(commits := s.commits) == s
  {
  }

  lemma ReadAnchorFrame(s: State, rid: nat)
    requires ReadAnchorStep(s, rid).Some?
    ensures ReadAnchorStep(s, rid).value.(readers := s.readers) == s
  {
  }

  /** Safety: in every interleaving of commits, submissions, readers, failed writes and restarts, the
      sequence numbers are contiguous, the stored anchor record carries the digest of the unique head of
      its size, every answered receipt is the one the log would derive now, and every view that claims a
      submission for the head beside it has the digest of that head. */
  lemma {:induction false} SafeFrom(svc: Service, s: State, actions: seq<Action>)
    requires Inv(svc, s) && Execute(svc, s, actions).Some?
    ensures Inv(svc, Execute(svc, s, actions).value)
    decreases |actions|
  {
    hide Inv, Act;
    if actions != [] {
      ActKeeps(svc, s, actions[0]);
      SafeFrom(svc, Act(svc, s, actions[0]).value, actions[1..]);
    }
  }

  lemma Safety(svc: Service, actions: seq<Action>)
    requires Execute(svc, INITIAL, actions).Some?
    ensures Inv(svc, Execute(svc, INITIAL, actions).value)
  {
    SafeFrom(svc, INITIAL, actions);
  }

  // ------------------------------------------------------------------ what an anchor commits to

  /** Two byte strings that are a collision of the digest function. */
  ghost predicate DigestCollision(svc: Service, x: seq<Byte>, y: seq<Byte>) {
    x != y && svc.sha256(x) == svc.sha256(y)
  }

  /** The bytes that are signed for a head, all of them. */
  function BytesOf(svc: Service, head: SignedTreeHead): seq<Byte> {
    svc.operator.canonicalBytes(head.logId, head.treeSize, head.timestamp, head.root)
  }

  /** A digest commits to all that its head says. */
  lemma DigestBinds(svc: Service, head: SignedTreeHead, other: SignedTreeHead)
    requires svc.Digest(head) == svc.Digest(other)
    ensures BytesOf(svc, head) == BytesOf(svc, other) || DigestCollision(svc, BytesOf(svc, head), BytesOf(svc, other))
  {
  }

  /** The same 32 bytes follow wherever the response could carry a digest. */
  predicate OneCandidate(der: seq<Byte>) {
    forall i, j | 0 <= i < |der| && 0 <= j < |der| && LooksLikeDigest(der, i) && LooksLikeDigest(der, j) ::
      der[i + 2..i + 34] == der[j + 2..j + 34]
  }

  /** A stored response anchors no other head. In every run, if it could carry one digest only, and it is offered as the
      anchor of any head, then that head says the same as the one of the size it was stored for, or here are two
      byte strings of one digest. */
  lemma AnchorsOneHead(svc: Service, run: seq<Action>, other: SignedTreeHead)
    requires Execute(svc, INITIAL, run).Some? && Execute(svc, INITIAL, run).value.tsa.Some?
    requires var r := Execute(svc, INITIAL, run).value.tsa.value;
             r.response.Some? && OneCandidate(r.response.value) && Binds(r.response.value, svc.Digest(other))
    ensures var s := Execute(svc, INITIAL, run).value;
            var (entries, r) := (s.log.entries, s.tsa.value);
            && 1 <= r.treeSize <= |entries| && HeadAt(svc.hashing, entries, r.treeSize, svc.operator).Some?
            && var head := HeadAt(svc.hashing, entries, r.treeSize, svc.operator).value;
               BytesOf(svc, head) == BytesOf(svc, other)
               || DigestCollision(svc, BytesOf(svc, head), BytesOf(svc, other))
  {
    hide Execute, HeadAt, Carries, Service.Digest, BytesOf, DigestCollision, LooksLikeDigest;
    Safety(svc, run);
    var s := Execute(svc, INITIAL, run).value;
    var r := s.tsa.value;
    OneDigestExactly(r.response.value);
    CandidatesInside(r.response.value);
    assert r.digest == svc.Digest(other);
    DigestBinds(svc, HeadAt(svc.hashing, s.log.entries, r.treeSize, svc.operator).value, other);
  }

  lemma CandidatesInside(der: seq<Byte>)
    requires OneCandidate(der)
    ensures forall i: nat, j: nat | LooksLikeDigest(der, i) && LooksLikeDigest(der, j) ::
              der[i + 2..i + 34] == der[j + 2..j + 34]
  {
    assert forall i: nat | LooksLikeDigest(der, i) :: i < |der|;
  }

  // ------------------------------------------------------------------ what a step leaves alone

  lemma OtherLog(svc: Service, s: State, a: Action)
    requires !a.Sequence? && !a.Restarting? && Act(svc, s, a).Some?
    ensures Act(svc, s, a).value.log == s.log && Act(svc, s, a).value.issued == s.issued
  {
    hide CurrentHeadOf, Outcome, AnchorView;
  }

  lemma SequenceActs(svc: Service, s: State, a: Action)
    requires a.Sequence?
    ensures Act(svc, s, a) == SequenceStep(svc, s, a)
  {
  }
}
