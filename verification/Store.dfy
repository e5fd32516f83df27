/** The log store: the tree, the sequenced entries, and the journal file they are replayed from. */
module Store {
  import opened Bits
  import opened Digests
  import opened MerkleSpec
  import opened Tree
  import opened Records
  import opened Journal
  import opened Restart

  /** A file on disk. It outlives the stores that are opened on it. */
  class JournalFile {
    var present: bool
    var bytes: seq<Byte>

    constructor ()
      ensures !present && bytes == []
    {
      present := false;
      bytes := [];
    }

    /** What a reader finds: nothing when the file is absent. */
    function Content(): seq<Byte>
      reads this
    {
      if present then bytes else []
    }
  }

  /** Reads one line off the front of the remaining bytes, as a buffered reader does. */
  method NextLine(rest: seq<Byte>) returns (line: Option<seq<Byte>>, rest': seq<Byte>)
    ensures line.None? <==> rest == []
    ensures line.Some? ==> Lines(rest) == [line.value] + Lines(rest') && |rest'| < |rest|
    ensures line.None? ==> rest' == []
  {
    if rest == [] {
      return None, [];
    }
    return Some(FirstLine(rest)), AfterFirstLine(rest);
  }

  class LogStore {
    const codec: Codec
    const tree: MerkleTree
    var entries: seq<CommitRecord>
    var journal: JournalFile?

    ghost predicate Valid()
      reads this, tree
    {
      && tree.Valid()
      && tree.leaves == Commitments(entries)
      && InSequence(entries)
    }

    constructor (k: Codec, h: Hashing)
      ensures Valid() && fresh(tree) && codec == k && tree.hashing == h && entries == [] && journal == null
    {
      codec := k;
      tree := new MerkleTree(h);
      entries := [];
      journal := null;
    }

    /** Opens a store: the journal, if one is named, is replayed if it exists, and then appended to where
        it ends. The file itself is not changed, not even behind a torn tail. */
    static method Open(k: Codec, h: Hashing, path: JournalFile?) returns (r: Result<LogStore, StoreError>)
      requires path != null ==> |path.bytes| < TWO_TO_THE_64
      modifies path
      ensures r.Ok? ==> fresh(r.value) && fresh(r.value.tree) && r.value.Valid()
      ensures r.Ok? ==> r.value.codec == k && r.value.tree.hashing == h && r.value.journal == path
      ensures path == null ==> r.Ok? && r.value.entries == []
      ensures path != null ==> path.Content() == old(path.Content())
      ensures path != null ==>
                match Journal.Replay(k, old(path.Content()))
                case Ok(entries) => r.Ok? && r.value.entries == entries && path.present
                case Err(e) => r == Err(e)
    {
      var store := new LogStore(k, h);
      if path != null {
        if path.present {
          var outcome := store.Replay(path.bytes);
          if outcome.Some? {
            return Err(outcome.value);
          }
        } else {
          path.present, path.bytes := true, [];
        }
        store.journal := path;
      }
      r := Ok(store);
    }

    /** Replays a journal into a fresh store, reading one line ahead so that a bad last line can be told
        from corruption before it. */
    method Replay(content: seq<Byte>) returns (error: Option<StoreError>)
      requires Valid() && entries == [] && |content| < TWO_TO_THE_64
      modifies this`entries, tree
      ensures Valid()
      ensures match Journal.Replay(codec, content)
              case Ok(all) => error == None && entries == all
              case Err(e) => error == Some(e)
    {
      hide Journal.Classify, Lines, InSequence;
      var lineNo := 0;
      var pending, rest := NextLine(content);
      if pending.Some? && Classify(codec, pending.value).Unreadable? {
        return Some(ReadError);
      }
      while pending.Some?
        invariant Valid() && |entries| <= lineNo
        invariant pending.None? ==> rest == []
        invariant pending.Some? ==> !Classify(codec, pending.value).Unreadable?
        invariant lineNo + |Remaining(pending, rest)| <= |content|
        invariant Journal.Replay(codec, content) == ReplayLines(codec, Remaining(pending, rest), entries, lineNo)
        decreases |Remaining(pending, rest)|
      {
        ghost var remaining := Remaining(pending, rest);
        lineNo := lineNo + 1;
        var next, rest' := NextLine(rest);
        assert remaining[1..] == Remaining(next, rest');
        if next.Some? && Classify(codec, next.value).Unreadable? {
          return Some(ReadError);
        }
        match Classify(codec, pending.value) {
          case Parsed(record) =>
            if record.seqNo != |entries| {
              return Some(OutOfSequence(lineNo, record.seqNo, |entries|));
            }
            Apply(record);
          case Garbled(why) =>
            if next.Some? {
              return Some(BadLine(lineNo, why));
            }
          case BlankLine(why) =>
            return Some(BadLine(lineNo, why));
        }
        pending, rest := next, rest';
      }
      return None;
    }

    /** The derived state after one record; live appends and replays share this step. */
    method Apply(record: CommitRecord)
      requires Valid() && record.seqNo == |entries| && |entries| + 1 < TWO_TO_THE_64
      modifies this`entries, tree
      ensures Valid() && entries == old(entries) + [record]
    {
      tree.Append(record.commitment);
      entries := entries + [record];
      assert Commitments(entries) == Commitments(old(entries)) + [record.commitment];
    }

    /** Appends one entry, journal first. `fault` is what the file system does: nothing wrong, or an error
        after that many bytes of the line and its line feed have reached the file. After an error the
        store is unchanged and stays in service. */
    method Append(subject: string, commitment: Hash, saltRef: Option<U64>, loggedAt: Timestamp, fault: Option<nat>)
      returns (r: Result<CommitRecord, StoreError>)
      requires Valid() && |entries| + 1 < TWO_TO_THE_64
      modifies this`entries, tree, journal
      ensures Valid() && journal == old(journal)
      ensures var record := CommitRecord(old(|entries|), loggedAt, subject, commitment, saltRef);
              if journal != null && fault.Some?
              then r == Err(WriteFailed) && entries == old(entries)
                   && journal.bytes == old(journal.bytes) + Cut(Written(codec, record), fault.value)
              else r == Ok(record) && entries == old(entries) + [record]
                   && (journal != null ==> journal.bytes == old(journal.bytes) + Written(codec, record))
      ensures journal != null ==> journal.present == old(journal.present)
    {
      var record := CommitRecord(|entries|, loggedAt, subject, commitment, saltRef);
      if journal != null {
        var line := RecordLine(codec, record) + [LF];
        if fault.Some? {
          journal.bytes := journal.bytes + Cut(line, fault.value);
          return Err(WriteFailed);
        }
        journal.bytes := journal.bytes + line;
      }
      Apply(record);
      r := Ok(record);
    }

    /** The record at `i`. */
    function RecordAt(i: nat): (r: Option<CommitRecord>)
      requires Valid()
      reads this, tree
      ensures r.Some? <==> i < |entries|
      ensures r.Some? ==> r.value == entries[i] && r.value.seqNo == i
    {
      if i < |entries| then Some(entries[i]) else None
    }

    /** The root of the first `s` entries; none for the empty prefix and for a prefix larger than the log. */
    method RootAtSize(s: nat) returns (root: Option<Hash>)
      requires Valid()
      ensures root == if s <= |entries| then Root(tree.hashing, Commitments(entries[..s])) else None
    {
      if s > |entries| {
        return None;
      }
      assert Commitments(entries)[..s] == Commitments(entries[..s]);
      var r, hashes := tree.RootAtSize(s);
      root := r;
    }
  }

  /** The lines still to be processed: the one read ahead and those behind it. */
  ghost function Remaining(pending: Option<seq<Byte>>, rest: seq<Byte>): seq<seq<Byte>> {
    match pending
    case None => []
    case Some(line) => [line] + Lines(rest)
  }

  /** The method contracts follow the run semantics of `Restart`: a store whose journal is in step with its
      entries is taken by an append to the state the semantics says, and is reopened as itself. */
  method AppendAndReopen(store: LogStore, e: Event) returns (again: LogStore)
    requires store.Valid() && store.journal != null && e.Append? && |store.entries| + 1 < TWO_TO_THE_64
    requires Faithful(store.codec) && InStep(store.codec, Log(store.journal.Content(), store.entries))
    requires store.journal.present
    requires |store.journal.bytes| + |Written(store.codec, RecordFor(|store.entries|, e))| < TWO_TO_THE_64
    modifies store`entries, store.tree, store.journal
    ensures fresh(again) && again.Valid() && again.journal == store.journal
    ensures again.entries == store.entries && again.tree.levels == store.tree.levels
    ensures Ok(Log(again.journal.Content(), again.entries))
         == Step(store.codec, old(Log(store.journal.Content(), store.entries)), e)
    ensures InStep(store.codec, Log(again.journal.Content(), again.entries))
  {
    ghost var before := Log(store.journal.Content(), store.entries);
    StepStaysInStep(store.codec, before, e);
    var appended := store.Append(e.subject, e.commitment, e.saltRef, e.loggedAt, None);
    var reopened := LogStore.Open(store.codec, store.tree.hashing, store.journal);
    again := reopened.value;
    LevelsUnique(store.tree.hashing, store.tree.leaves, store.tree.levels, again.tree.levels);
  }
}
