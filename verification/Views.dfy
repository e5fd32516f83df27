/** What the external-anchor views mean, over whole runs of the protocol: which moments of a run decide what a
    view says, and exactly when the stored record is behind or ahead of the head beside it. */
module Views {
  import opened Digests
  import opened MerkleSpec
  import opened Records
  import opened Restart
  import opened Receipts
  import opened Anchoring
  import opened Protocol
  import opened Executions

  // ------------------------------------------------------------------ moments of a run

  /** The last step that is `a`. */
  function LastIndex(run: seq<Action>, a: Action): (r: Option<nat>)
    ensures r.None? ==> forall k | 0 <= k < |run| :: run[k] != a
    ensures r.Some? ==> r.value < |run| && run[r.value] == a && forall k | r.value < k < |run| :: run[k] != a
  {
    if run == [] then None
    else if run[|run| - 1] == a then Some(|run| - 1)
    else LastIndex(run[..|run| - 1], a)
  }

  predicate NoRestart(run: seq<Action>, i: nat, j: nat)
    requires j <= |run|
  {
    forall k | i <= k < j :: !run[k].Restarting?
  }

  /** The last time a record was stored in this process. */
  function LastStore(run: seq<Action>): (r: Option<nat>)
    ensures r.Some? ==> r.value < |run| && run[r.value].StoreAnchor? && NoRestart(run, r.value, |run|)
    ensures r.Some? ==> forall k | r.value < k < |run| :: !run[k].StoreAnchor?
    ensures r.None? ==> forall k | 0 <= k < |run| && run[k].StoreAnchor? :: !NoRestart(run, k, |run|)
  {
    if run == [] then None
    else
      var (init, last) := (run[..|run| - 1], run[|run| - 1]);
      if last.Restarting? then None
      else if last.StoreAnchor? then Some(|run| - 1)
      else
        assert forall k | 0 <= k < |init| :: run[k] == init[k];
        assert forall k | 0 <= k < |init| && !NoRestart(init, k, |init|) :: !NoRestart(run, k, |run|);
        LastStore(init)
  }

  /** A record was stored since the last restart. */
  predicate AnchoredSinceRestart(run: seq<Action>) {
    exists k | 0 <= k < |run| :: run[k].StoreAnchor? && NoRestart(run, k, |run|)
  }

  /** When the head was taken that the record stored at step `w` was submitted for. */
  function Taken(run: seq<Action>, w: nat): (t: nat)
    requires w < |run| && run[w].StoreAnchor?
    ensures t <= w
  {
    match LastIndex(run[..w], TakeHead(run[w].id))
    case None => w
    case Some(t) => t
  }

  /** An entry is sequenced at or after step `i` and before step `j`. */
  predicate Grew(run: seq<Action>, i: nat, j: nat)
    requires j <= |run|
  {
    exists k | i <= k < j :: Grows(run[k])
  }

  /** The size of the record stored before step `i`, if any. */
  ghost function StoredAt(svc: Service, run: seq<Action>, i: nat): Option<nat>
    requires i <= |run|
  {
    match Execute(svc, INITIAL, run[..i])
    case None => None
    case Some(s) => if s.tsa.None? then None else Some(s.tsa.value.treeSize)
  }

  // ------------------------------------------------------------------ growth

  /** In one process the log never shrinks, and grows exactly by what is sequenced. */
  lemma {:induction false} Growth(svc: Service, run: seq<Action>, i: nat, j: nat)
    requires Runs(svc, run) && i <= j <= |run| && NoRestart(run, i, j)
    ensures LenAt(svc, run, i) <= LenAt(svc, run, j)
    ensures LenAt(svc, run, i) < LenAt(svc, run, j) <==> Grew(run, i, j)
    decreases j
  {
    hide Act, Execute;
    if i < j {
      Growth(svc, run, i, j - 1);
      PrefixRuns(svc, run, j);
      assert run[..j] == run[..j - 1] + [run[j - 1]];
      RunSnoc(svc, run[..j - 1], run[j - 1]);
      ActGrowth(svc, Execute(svc, INITIAL, run[..j - 1]).value, run[j - 1]);
      assert Grew(run, i, j) <==> Grew(run, i, j - 1) || Grows(run[j - 1]);
    }
  }

  /** Which of two moments of one process had more entries. */
  lemma Compare(svc: Service, run: seq<Action>, i: nat, j: nat)
    requires Runs(svc, run) && i <= |run| && j <= |run|
    requires NoRestart(run, i, |run|) && NoRestart(run, j, |run|)
    ensures LenAt(svc, run, i) < LenAt(svc, run, j) <==> Grew(run, i, j)
  {
    hide LenAt;
    if i <= j {
      Growth(svc, run, i, j);
    } else {
      Growth(svc, run, j, i);
    }
  }

  // ------------------------------------------------------------------ what the state remembers

  /** The last time `a` was done is in this process, and the log had `n` entries then. */
  ghost predicate Remembers(svc: Service, run: seq<Action>, a: Action, n: nat) {
    var t := LastIndex(run, a);
    t.Some? && NoRestart(run, t.value, |run|) && LenAt(svc, run, t.value) == n
  }

  ghost predicate CommitRemembers(svc: Service, run: seq<Action>, id: nat, c: Commit) {
    && (c.Submitting? ==> Remembers(svc, run, TakeHead(id), c.head.treeSize))
    && (c.Storing? ==> Remembers(svc, run, TakeHead(id), c.record.treeSize))
  }

  ghost predicate ReaderRemembers(svc: Service, run: seq<Action>, rid: nat, r: Reader) {
    match r
    case HeadTaken(taken) => taken.Some? ==> Remembers(svc, run, ReadHead(rid), taken.value.treeSize)
    case Served(head, view) =>
      && Remembers(svc, run, ReadHead(rid), head.treeSize)
      && var (p, q) := (LastIndex(run, ReadHead(rid)).value, LastIndex(run, ReadAnchor(rid)));
         && q.Some? && p < q.value && Runs(svc, run[..q.value])
         && view == AnchorView(Execute(svc, INITIAL, run[..q.value]).value.tsa, head.treeSize)
  }

  /** The record is the one stored last, and names the size of the log when its head was taken. */
  ghost predicate TsaRemembers(svc: Service, run: seq<Action>, tsa: Option<TsaRecord>) {
    match LastStore(run)
    case None => tsa.None?
    case Some(w) => tsa.Some? && Remembers(svc, run[..w], TakeHead(run[w].id), tsa.value.treeSize)
  }

  ghost predicate StateRemembers(svc: Service, run: seq<Action>, s: State) {
    && (forall id | id in s.commits :: CommitRemembers(svc, run, id, s.commits[id]))
    && (forall rid | rid in s.readers :: ReaderRemembers(svc, run, rid, s.readers[rid]))
    && TsaRemembers(svc, run, s.tsa)
  }

  lemma LastIndexSnoc(run: seq<Action>, a: Action, b: Action)
    ensures LastIndex(run + [a], b) == if a == b then Some(|run|) else LastIndex(run, b)
  {
    assert (run + [a])[..|run|] == run;
  }

  lemma LastStoreSnoc(run: seq<Action>, a: Action)
    ensures LastStore(run + [a])
         == if a.Restarting? then None else if a.StoreAnchor? then Some(|run|) else LastStore(run)
  {
    assert (run + [a])[..|run|] == run;
  }

  /** A moment stays remembered until it is repeated or the process ends. */
  lemma StillRemembered(svc: Service, run: seq<Action>, a: Action, b: Action, n: nat)
    requires Remembers(svc, run, b, n) && a != b && !a.Restarting?
    ensures Remembers(svc, run + [a], b, n)
  {
    hide LenAt;
    LastIndexSnoc(run, a, b);
    var t := LastIndex(run, b).value;
    LenAtPrefix(svc, run, run + [a], t);
  }

  lemma NowRemembered(svc: Service, run: seq<Action>, a: Action, s: State)
    requires Execute(svc, INITIAL, run) == Some(s) && !a.Restarting?
    ensures Remembers(svc, run + [a], a, |s.log.entries|)
  {
    hide Execute;
    LastIndexSnoc(run, a, a);
    PrefixOfSnoc(run, a, |run|);
    assert run[..|run|] == run;
  }

  lemma CommitStillRemembers(svc: Service, run: seq<Action>, a: Action, id: nat, c: Commit)
    requires CommitRemembers(svc, run, id, c) && a != TakeHead(id) && !a.Restarting?
    ensures CommitRemembers(svc, run + [a], id, c)
  {
    hide Remembers;
    if c.Submitting? {
      StillRemembered(svc, run, a, TakeHead(id), c.head.treeSize);
    }
    if c.Storing? {
      StillRemembered(svc, run, a, TakeHead(id), c.record.treeSize);
    }
  }

  lemma ReaderStillRemembers(svc: Service, run: seq<Action>, a: Action, rid: nat, r: Reader)
    requires ReaderRemembers(svc, run, rid, r) && !a.Restarting? && a != ReadHead(rid)
    requires r.Served? ==> a != ReadAnchor(rid)
    ensures ReaderRemembers(svc, run + [a], rid, r)
  {
    match r
    case HeadTaken(taken) =>
      hide Remembers;
      if taken.Some? {
        StillRemembered(svc, run, a, ReadHead(rid), taken.value.treeSize);
      }
    case Served(head, view) =>
      StillRemembered(svc, run, a, ReadHead(rid), head.treeSize);
      hide Remembers, Runs, Execute, LenAt;
      LastIndexSnoc(run, a, ReadHead(rid));
      LastIndexSnoc(run, a, ReadAnchor(rid));
      PrefixOfSnoc(run, a, LastIndex(run, ReadAnchor(rid)).value);
  }

  lemma TsaStillRemembers(svc: Service, run: seq<Action>, a: Action, tsa: Option<TsaRecord>)
    requires TsaRemembers(svc, run, tsa) && !a.Restarting? && !a.StoreAnchor?
    ensures TsaRemembers(svc, run + [a], tsa)
  {
    hide Remembers;
    LastStoreSnoc(run, a);
    if LastStore(run).Some? {
      PrefixOfSnoc(run, a, LastStore(run).value);
    }
  }

  lemma RememberCommits(svc: Service, run: seq<Action>, s: State, a: Action, s': State)
    requires Execute(svc, INITIAL, run) == Some(s) && StateRemembers(svc, run, s)
    requires Act(svc, s, a) == Some(s') && !a.Restarting?
    ensures forall id | id in s'.commits :: CommitRemembers(svc, run + [a], id, s'.commits[id])
  {
    hide Remembers, ReaderRemembers, TsaRemembers, Execute, ReceiptAt, Outcome, AnchorView;
    forall id | id in s'.commits ensures CommitRemembers(svc, run + [a], id, s'.commits[id]) {
      if id in s.commits && a != TakeHead(id) {
        CommitStillRemembers(svc, run, a, id, s.commits[id]);
      }
      if a == TakeHead(id) {
        NowRemembered(svc, run, a, s);
      }
    }
  }

  lemma RememberReaders(svc: Service, run: seq<Action>, s: State, a: Action, s': State)
    requires Execute(svc, INITIAL, run) == Some(s) && StateRemembers(svc, run, s)
    requires Act(svc, s, a) == Some(s') && !a.Restarting?
    ensures forall rid | rid in s'.readers :: ReaderRemembers(svc, run + [a], rid, s'.readers[rid])
  {
    hide ReaderRemembers, CommitRemembers, TsaRemembers, Execute, ReceiptAt, Outcome, AnchorView, CurrentHeadOf;
    forall rid | rid in s'.readers ensures ReaderRemembers(svc, run + [a], rid, s'.readers[rid]) {
      if a == ReadHead(rid) {
        ReadHeadRemembered(svc, run, s, rid, s');
      } else if a == ReadAnchor(rid) {
        ReadAnchorRemembered(svc, run, s, rid, s');
      } else {
        ReaderStillRemembers(svc, run, a, rid, s.readers[rid]);
      }
    }
  }

  lemma ReadHeadRemembered(svc: Service, run: seq<Action>, s: State, rid: nat, s': State)
    requires Execute(svc, INITIAL, run) == Some(s) && ReadHeadStep(svc, s, rid) == Some(s')
    ensures ReaderRemembers(svc, run + [ReadHead(rid)], rid, s'.readers[rid])
  {
    hide Remembers, Execute;
    NowRemembered(svc, run, ReadHead(rid), s);
  }

  lemma ReadAnchorRemembered(svc: Service, run: seq<Action>, s: State, rid: nat, s': State)
    requires Execute(svc, INITIAL, run) == Some(s) && ReadAnchorStep(s, rid) == Some(s')
    requires rid in s.readers && ReaderRemembers(svc, run, rid, s.readers[rid])
    ensures ReaderRemembers(svc, run + [ReadAnchor(rid)], rid, s'.readers[rid])
  {
    hide Execute, LenAt, AnchorView;
    var a := ReadAnchor(rid);
    var head := s.readers[rid].taken.value;
    StillRemembered(svc, run, a, ReadHead(rid), head.treeSize);
    LastIndexSnoc(run, a, ReadHead(rid));
    LastIndexSnoc(run, a, a);
    PrefixOfSnoc(run, a, |run|);
    assert run[..|run|] == run;
  }

  lemma RememberTsa(svc: Service, run: seq<Action>, s: State, a: Action, s': State)
    requires StateRemembers(svc, run, s) && Act(svc, s, a) == Some(s') && !a.Restarting?
    ensures TsaRemembers(svc, run + [a], s'.tsa)
  {
    hide Remembers, ReaderRemembers, Execute, ReceiptAt, Outcome, AnchorView, CurrentHeadOf;
    if a.StoreAnchor? {
      LastStoreSnoc(run, a);
      PrefixOfSnoc(run, a, |run|);
      assert run[..|run|] == run;
    } else {
      TsaStillRemembers(svc, run, a, s.tsa);
    }
  }

  lemma RememberNothing(svc: Service, run: seq<Action>, s: State, s': State)
    requires Act(svc, s, Restarting) == Some(s')
    ensures StateRemembers(svc, run + [Restarting], s')
  {
    LastStoreSnoc(run, Restarting);
  }

  /** In every run, heads, records and views carry the sizes of the moments they come from. */
  lemma {:induction false} Remembered(svc: Service, run: seq<Action>)
    requires Runs(svc, run)
    ensures StateRemembers(svc, run, Execute(svc, INITIAL, run).value)
    decreases |run|
  {
    hide Act, Execute, CommitRemembers, ReaderRemembers, TsaRemembers;
    if run == [] {
      StartRemembered(svc);
    } else {
      var (init, a) := (run[..|run| - 1], run[|run| - 1]);
      assert run == init + [a];
      RunSnoc(svc, init, a);
      Remembered(svc, init);
      var (s, s') := (Execute(svc, INITIAL, init).value, Execute(svc, INITIAL, run).value);
      if a.Restarting? {
        RememberNothing(svc, init, s, s');
      } else {
        RememberCommits(svc, init, s, a, s');
        RememberReaders(svc, init, s, a, s');
        RememberTsa(svc, init, s, a, s');
      }
    }
  }

  lemma StartRemembered(svc: Service)
    ensures StateRemembers(svc, [], Execute(svc, INITIAL, []).value)
  {
  }

  // ------------------------------------------------------------------ what the views mean

  lemma AnchoredExactly(run: seq<Action>)
    ensures AnchoredSinceRestart(run) <==> LastStore(run).Some?
  {
  }

  ghost predicate IsServed(svc: Service, run: seq<Action>, rid: nat) {
    && Runs(svc, run) && rid in Execute(svc, INITIAL, run).value.readers
    && Execute(svc, INITIAL, run).value.readers[rid].Served?
  }

  ghost function ServedTo(svc: Service, run: seq<Action>, rid: nat): Reader
    requires IsServed(svc, run, rid)
  {
    Execute(svc, INITIAL, run).value.readers[rid]
  }

  /** Where a view comes from: the head was read at step `p` and the anchor at step `q` of this process. The
      view says `not-configured` if and only if no record had been stored in this process by then. */
  lemma NotConfiguredExactly(svc: Service, run: seq<Action>, rid: nat) returns (p: nat, q: nat)
    requires IsServed(svc, run, rid)
    ensures p < q < |run| && run[p] == ReadHead(rid) && run[q] == ReadAnchor(rid) && NoRestart(run, p, |run|)
    ensures ServedTo(svc, run, rid).head.treeSize == LenAt(svc, run, p)
    ensures Runs(svc, run[..q])
    ensures ServedTo(svc, run, rid).view == AnchorView(Execute(svc, INITIAL, run[..q]).value.tsa, LenAt(svc, run, p))
    ensures ServedTo(svc, run, rid).view == NotConfigured <==> !AnchoredSinceRestart(run[..q])
  {
    hide Execute, LenAt, CommitRemembers;
    Remembered(svc, run);
    var s := Execute(svc, INITIAL, run).value;
    assert ReaderRemembers(svc, run, rid, s.readers[rid]);
    p, q := LastIndex(run, ReadHead(rid)).value, LastIndex(run, ReadAnchor(rid)).value;
    Remembered(svc, run[..q]);
    AnchoredExactly(run[..q]);
  }

  /** The record stored at step `w` names the size that the log had when its head was taken. */
  lemma StoredSize(svc: Service, run: seq<Action>, i: nat)
    requires Runs(svc, run) && i <= |run|
    ensures match LastStore(run[..i])
            case None => StoredAt(svc, run, i) == None
            case Some(w) =>
              && StoredAt(svc, run, i) == Some(LenAt(svc, run, Taken(run, w)))
              && NoRestart(run, Taken(run, w), i) && Taken(run, w) < w
  {
    hide Execute, CommitRemembers, ReaderRemembers, LastIndex, LastStore;
    PrefixRuns(svc, run, i);
    Remembered(svc, run[..i]);
    if LastStore(run[..i]).Some? {
      var w := LastStore(run[..i]).value;
      assert run[..i][..w] == run[..w];
      StoredThere(svc, run, i, w);
    }
  }

  lemma StoredThere(svc: Service, run: seq<Action>, i: nat, w: nat)
    requires w < i <= |run| && run[w].StoreAnchor? && NoRestart(run[..i], w, i)
    requires Remembers(svc, run[..w], TakeHead(run[w].id), LenAt(svc, run[..w], Taken(run, w)))
    ensures NoRestart(run, Taken(run, w), i) && Taken(run, w) < w
    ensures LenAt(svc, run, Taken(run, w)) == LenAt(svc, run[..w], Taken(run, w))
  {
    hide LenAt;
    var t := Taken(run, w);
    LenAtPrefix(svc, run[..w], run, t);
    forall k | t <= k < i ensures !run[k].Restarting? {
      if k < w {
        assert !run[..w][k].Restarting?;
      } else {
        assert !run[..i][k].Restarting?;
      }
    }
  }

  /** Exactly when a view is of the head beside it, behind it, or ahead of it: the head was read at step `p`, the
      anchor at step `q`, and the head of the record last stored before that was taken at step `t`. The view
      says `stale` and names a later size if and only if an entry was sequenced between `p` and `t`, an earlier
      one if and only if an entry was sequenced between `t` and `p`. So if nothing is sequenced between the two
      locks of the reader, a stale view names an earlier size. */
  lemma StaleExactly(svc: Service, run: seq<Action>, rid: nat) returns (p: nat, q: nat)
    requires IsServed(svc, run, rid) && ServedTo(svc, run, rid).view != NotConfigured
    ensures p < q < |run| && run[p] == ReadHead(rid) && run[q] == ReadAnchor(rid) && NoRestart(run, p, |run|)
    ensures LastStore(run[..q]).Some?
    ensures var (t, head) := (Taken(run, LastStore(run[..q]).value), ServedTo(svc, run, rid).head);
            match ServedTo(svc, run, rid).view
            case Submission(r) => r.treeSize == head.treeSize && !Grew(run, p, t) && !Grew(run, t, p)
            case Stale(n) =>
              && n != head.treeSize
              && (n > head.treeSize <==> Grew(run, p, t)) && (n < head.treeSize <==> Grew(run, t, p))
              && (!Grew(run, p, q) ==> n < head.treeSize)
            case NotConfigured => false
  {
    hide Execute, LenAt;
    p, q := NotConfiguredExactly(svc, run, rid);
    AnchoredExactly(run[..q]);
    StoredSize(svc, run, q);
    var t := Taken(run, LastStore(run[..q]).value);
    assert NoRestart(run, t, |run|);
    Compare(svc, run, p, t);
    Compare(svc, run, t, p);
    assert Grew(run, p, t) ==> Grew(run, p, q);
  }

  // ------------------------------------------------------------------ no authority

  predicate Unanchored(s: State) {
    && s.tsa.None?
    && (forall id | id in s.commits :: s.commits[id].Sequenced? || s.commits[id].Answered?)
    && (forall rid | rid in s.readers && s.readers[rid].Served? :: s.readers[rid].view == NotConfigured)
  }

  lemma ActUnanchored(svc: Service, s: State, a: Action)
    requires svc.tsaUrl.None? && Unanchored(s) && Act(svc, s, a).Some?
    ensures Unanchored(Act(svc, s, a).value) && !a.StoreAnchor?
  {
    hide CurrentHeadOf, ReceiptAt, Outcome;
  }

  /** Without a configured authority no record is ever stored, and every view in every run says
      `not-configured`. */
  lemma {:induction false} NoAuthority(svc: Service, run: seq<Action>)
    requires svc.tsaUrl.None? && Runs(svc, run)
    ensures Unanchored(Execute(svc, INITIAL, run).value) && forall k | 0 <= k < |run| :: !run[k].StoreAnchor?
    decreases |run|
  {
    hide Act, Unanchored;
    hide Execute;
    if run == [] {
      NothingStored(svc);
    } else {
      var (init, a) := (run[..|run| - 1], run[|run| - 1]);
      assert run == init + [a];
      RunSnoc(svc, init, a);
      NoAuthority(svc, init);
      ActUnanchored(svc, Execute(svc, INITIAL, init).value, a);
    }
  }

  lemma NothingStored(svc: Service)
    ensures Execute(svc, INITIAL, []) == Some(INITIAL) && Unanchored(INITIAL)
  {
  }

  // ------------------------------------------------------------------ stored sizes

  /** In every process the size of the stored record only goes up. */
  ghost predicate SizesNeverDown(svc: Service, run: seq<Action>) {
    forall i: nat, j: nat | i <= j <= |run| && NoRestart(run, i, j) && StoredAt(svc, run, i).Some? ::
      StoredAt(svc, run, j).Some? && StoredAt(svc, run, i).value <= StoredAt(svc, run, j).value
  }

  /** In every process submissions are stored in the order of the heads they took, but for heads of one size. */
  predicate StoredInOrder(run: seq<Action>) {
    forall v: nat, w: nat | v < w < |run| && run[v].StoreAnchor? && run[w].StoreAnchor? && NoRestart(run, v, w) ::
      !Grew(run, Taken(run, w), Taken(run, v))
  }

  /** The size after a step that stores. */
  lemma SizeAfterStore(svc: Service, run: seq<Action>, w: nat)
    requires Runs(svc, run) && w < |run| && run[w].StoreAnchor?
    ensures StoredAt(svc, run, w + 1) == Some(LenAt(svc, run, Taken(run, w))) && NoRestart(run, Taken(run, w), w + 1)
  {
    hide Execute, LenAt, StoredAt;
    assert run[..w + 1] == run[..w] + [run[w]];
    LastStoreSnoc(run[..w], run[w]);
    StoredSize(svc, run, w + 1);
  }

  lemma OrderNeeded(svc: Service, run: seq<Action>, v: nat, w: nat)
    requires Runs(svc, run) && SizesNeverDown(svc, run)
    requires v < w < |run| && run[v].StoreAnchor? && run[w].StoreAnchor? && NoRestart(run, v, w)
    ensures !Grew(run, Taken(run, w), Taken(run, v))
  {
    hide Execute, LenAt, StoredAt;
    SizeAfterStore(svc, run, v);
    SizeAfterStore(svc, run, w);
    assert NoRestart(run, v + 1, w + 1);
    var (t, t') := (Taken(run, v), Taken(run, w));
    if t' < t {
      assert NoRestart(run, t', t);
      Growth(svc, run, t', t);
    }
  }

  lemma OrderSuffices(svc: Service, run: seq<Action>, i: nat, j: nat)
    requires Runs(svc, run) && StoredInOrder(run)
    requires i <= j <= |run| && NoRestart(run, i, j) && StoredAt(svc, run, i).Some?
    ensures StoredAt(svc, run, j).Some? && StoredAt(svc, run, i).value <= StoredAt(svc, run, j).value
  {
    hide Execute, LenAt, StoredAt, LastStore, Taken;
    StoredSize(svc, run, i);
    StoredSize(svc, run, j);
    var v := LastStore(run[..i]).value;
    StoreSeenLater(run, i, j);
    var w := LastStore(run[..j]).value;
    var (t, t') := (Taken(run, v), Taken(run, w));
    if v < w {
      assert NoRestart(run, v, w);
      assert !Grew(run, t', t);
      if t <= t' {
        assert NoRestart(run, t, t');
        Growth(svc, run, t, t');
      } else {
        assert NoRestart(run, t', t);
        Growth(svc, run, t', t);
      }
    }
  }

  /** A record that is stored stays or is replaced within one process. */
  lemma StoreSeenLater(run: seq<Action>, i: nat, j: nat)
    requires i <= j <= |run| && NoRestart(run, i, j) && LastStore(run[..i]).Some?
    ensures LastStore(run[..j]).Some? && LastStore(run[..j]).value >= LastStore(run[..i]).value
    ensures NoRestart(run, LastStore(run[..i]).value, j)
    ensures run[LastStore(run[..i]).value].StoreAnchor? && run[LastStore(run[..j]).value].StoreAnchor?
  {
    var v := LastStore(run[..i]).value;
    assert forall k | 0 <= k < i :: run[..i][k] == run[k] == run[..j][k];
    forall k | v <= k < j ensures !run[k].Restarting? {
      if k < i {
        assert !run[..i][k].Restarting?;
      }
    }
    assert run[..j][v].StoreAnchor? && NoRestart(run[..j], v, j);
  }

  /** Stored sizes never go down within a process if and only if submissions are stored in the order of the
      sizes of the heads they took: none whose head was taken before that of an earlier stored one, with an entry
      sequenced in between. */
  lemma SizesNeverDownExactly(svc: Service, run: seq<Action>)
    requires Runs(svc, run)
    ensures SizesNeverDown(svc, run) <==> StoredInOrder(run)
  {
    hide Execute, LenAt, StoredAt, LastStore, Taken, NoRestart, Grew;
    if SizesNeverDown(svc, run) {
      forall v: nat, w: nat | v < w < |run| && run[v].StoreAnchor? && run[w].StoreAnchor? && NoRestart(run, v, w)
        ensures !Grew(run, Taken(run, w), Taken(run, v))
      {
        OrderNeeded(svc, run, v, w);
      }
    }
    if StoredInOrder(run) {
      forall i: nat, j: nat | i <= j <= |run| && NoRestart(run, i, j) && StoredAt(svc, run, i).Some?
        ensures StoredAt(svc, run, j).Some? && StoredAt(svc, run, i).value <= StoredAt(svc, run, j).value
      {
        OrderSuffices(svc, run, i, j);
      }
    }
  }

  // ------------------------------------------------------------------ a witness

  /** A commit that is sequenced and has taken the head it makes current. */
  lemma CommitTakesHead(svc: Service, before: seq<Action>, s: State, id: nat, c: Hash, t: Timestamp)
    returns (actions: seq<Action>, s': State)
    requires svc.tsaUrl.Some? && forall message :: svc.operator.sign(message).Some?
    requires Execute(svc, INITIAL, before) == Some(s)
    requires !s.poisoned && id !in s.commits && |s.log.entries| < 10
    ensures Execute(svc, INITIAL, actions) == Some(s')
    ensures !s'.poisoned && s'.tsa == s.tsa && s'.readers == s.readers && |s'.log.entries| == |s.log.entries| + 1
    ensures id in s'.commits && s'.commits[id].Submitting? && s'.commits[id].head.treeSize == |s'.log.entries|
    ensures s'.commits == s.commits[id := s'.commits[id]]
  {
    hide Mth, Written, Execute;
    actions, s' := Then(svc, before, s, Sequence(id, "subject", c, None, t, None));
    actions, s' := Then(svc, actions, s', TakeHead(id));
  }

  /** A submission that ends without a reply, and is stored. */
  lemma SubmissionEnds(svc: Service, before: seq<Action>, s: State, id: nat, t: Timestamp)
    returns (actions: seq<Action>, s': State)
    requires svc.tsaUrl.Some? && Execute(svc, INITIAL, before) == Some(s)
    requires id in s.commits && s.commits[id].Submitting?
    ensures actions == before + [Reply(id, t, None), StoreAnchor(id)] && Execute(svc, INITIAL, actions) == Some(s')
    ensures s'.tsa.Some? && s'.tsa.value.treeSize == s.commits[id].head.treeSize
    ensures s'.log == s.log && s'.readers == s.readers && id in s'.commits
    ensures s'.commits == s.commits[id := s'.commits[id]]
  {
    hide Execute;
    actions, s' := Then(svc, before, s, Reply(id, t, None));
    actions, s' := Then(svc, actions, s', StoreAnchor(id));
    assert actions == before + [Reply(id, t, None), StoreAnchor(id)];
  }

  lemma HeadRead(svc: Service, before: seq<Action>, s: State, rid: nat) returns (actions: seq<Action>, s': State)
    requires forall message :: svc.operator.sign(message).Some?
    requires Execute(svc, INITIAL, before) == Some(s) && !s.poisoned && rid !in s.readers && s.log.entries != []
    ensures Execute(svc, INITIAL, actions) == Some(s') && s' == s.(readers := s'.readers)
    ensures rid in s'.readers && s'.readers == s.readers[rid := s'.readers[rid]]
    ensures s'.readers[rid].HeadTaken? && s'.readers[rid].taken.Some?
    ensures s'.readers[rid].taken.value.treeSize == |s.log.entries|
  {
    hide Mth, Execute;
    actions, s' := Then(svc, before, s, ReadHead(rid));
  }

  lemma ViewServed(svc: Service, before: seq<Action>, s: State, rid: nat) returns (actions: seq<Action>, s': State)
    requires Execute(svc, INITIAL, before) == Some(s)
    requires rid in s.readers && s.readers[rid].HeadTaken? && s.readers[rid].taken.Some?
    ensures Execute(svc, INITIAL, actions) == Some(s') && s' == s.(readers := s'.readers)
    ensures var head := s.readers[rid].taken.value;
            s'.readers == s.readers[rid := Served(head, AnchorView(s.tsa, head.treeSize))]
  {
    hide Execute;
    actions, s' := Then(svc, before, s, ReadAnchor(rid));
  }

  ghost predicate SaysNotConfigured(s: State, rid: nat) {
    rid in s.readers && s.readers[rid].Served? && s.readers[rid].view == NotConfigured
  }

  ghost predicate SaysStaleForLaterSize(s: State, rid: nat) {
    && rid in s.readers && s.readers[rid].Served? && s.readers[rid].view.Stale?
    && s.readers[rid].view.anchoredTreeSize > s.readers[rid].head.treeSize
  }

  /** With a time-stamping authority configured and an operator that can sign, there is a run in which a view
      says `not-configured`, a view says `stale` and names a later size than its head, and the stored record
      then goes back to a smaller size. */
  lemma UnpromisedViews(svc: Service, c: Hash, t: Timestamp)
    returns (actions: seq<Action>, middle: State, more: seq<Action>, end: State)
    requires svc.tsaUrl.Some? && forall message :: svc.operator.sign(message).Some?
    ensures Execute(svc, INITIAL, actions) == Some(middle) && Execute(svc, INITIAL, actions + more) == Some(end)
    ensures exists rid :: SaysNotConfigured(middle, rid)
    ensures exists rid :: SaysStaleForLaterSize(middle, rid)
    ensures middle.tsa.Some? && end.tsa.Some? && end.tsa.value.treeSize < middle.tsa.value.treeSize
  {
    hide Execute;
    ExecuteNothing(svc);
    var s;
    actions, s := CommitTakesHead(svc, [], INITIAL, 0, c, t);
    actions, s := HeadRead(svc, actions, s, 0);
    actions, s := HeadRead(svc, actions, s, 1);
    actions, s := ViewServed(svc, actions, s, 1);
    actions, s := CommitTakesHead(svc, actions, s, 1, c, t);
    actions, s := SubmissionEnds(svc, actions, s, 1, t);
    actions, middle := ViewServed(svc, actions, s, 0);
    assert SaysNotConfigured(middle, 1) && SaysStaleForLaterSize(middle, 0);
    var all;
    all, end := SubmissionEnds(svc, actions, middle, 0, t);
    more := [Reply(0, t, None), StoreAnchor(0)];
  }
}
