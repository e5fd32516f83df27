/** Runs of the protocol: executions from the initial state, their prefixes, and their last steps. */
module Executions {
  import opened Digests
  import opened Receipts
  import opened Protocol

  lemma ExecuteNothing(svc: Service)
    ensures Execute(svc, INITIAL, []) == Some(INITIAL)
  {
  }

  lemma ExecuteStep(svc: Service, s: State, a: Action, rest: seq<Action>)
    requires Act(svc, s, a).Some?
    ensures Execute(svc, s, [a] + rest) == Execute(svc, Act(svc, s, a).value, rest)
  {
  }

  lemma {:induction false} ExecuteConcat(svc: Service, s: State, first: seq<Action>, rest: seq<Action>)
    requires Execute(svc, s, first).Some?
    ensures Execute(svc, s, first + rest) == Execute(svc, Execute(svc, s, first).value, rest)
    decreases |first|
  {
    hide Act;
    if first == [] {
      assert first + rest == rest;
    } else {
      assert (first + rest)[1..] == first[1..] + rest;
      ExecuteConcat(svc, Act(svc, s, first[0]).value, first[1..], rest);
    }
  }

  lemma Then(svc: Service, soFar: seq<Action>, s: State, a: Action) returns (actions: seq<Action>, s': State)
    requires Execute(svc, INITIAL, soFar) == Some(s) && Act(svc, s, a).Some?
    ensures actions == soFar + [a] && Some(s') == Act(svc, s, a) && Execute(svc, INITIAL, actions) == Some(s')
  {
    hide Act;
    actions, s' := soFar + [a], Act(svc, s, a).value;
    ExecuteConcat(svc, INITIAL, soFar, [a]);
    ExecuteStep(svc, s, a, []);
  }

  ghost predicate Runs(svc: Service, run: seq<Action>) {
    Execute(svc, INITIAL, run).Some?
  }

  lemma {:induction false} RunsBefore(svc: Service, s: State, first: seq<Action>, rest: seq<Action>)
    requires Execute(svc, s, first + rest).Some?
    ensures Execute(svc, s, first).Some?
    decreases |first|
  {
    hide Act;
    if first != [] {
      assert (first + rest)[1..] == first[1..] + rest;
      RunsBefore(svc, Act(svc, s, first[0]).value, first[1..], rest);
    }
  }

  /** A run ends with its last step. */
  lemma RunSnoc(svc: Service, run: seq<Action>, a: Action)
    requires Runs(svc, run + [a])
    ensures Runs(svc, run) && Act(svc, Execute(svc, INITIAL, run).value, a) == Execute(svc, INITIAL, run + [a])
  {
    hide Act;
    RunsBefore(svc, INITIAL, run, [a]);
    var s := Execute(svc, INITIAL, run).value;
    ExecuteConcat(svc, INITIAL, run, [a]);
    assert Execute(svc, s, [a]).Some?;
    assert [a][1..] == [];
    assert Execute(svc, s, [a]) == Act(svc, s, a);
  }

  lemma PrefixRuns(svc: Service, run: seq<Action>, i: nat)
    requires Runs(svc, run) && i <= |run|
    ensures Runs(svc, run[..i])
  {
    assert run == run[..i] + run[i..];
    RunsBefore(svc, INITIAL, run[..i], run[i..]);
  }

  lemma PrefixOfSnoc(run: seq<Action>, a: Action, i: nat)
    requires i <= |run|
    ensures (run + [a])[..i] == run[..i]
  {
  }

  /** The number of entries served before step `i`. */
  ghost function LenAt(svc: Service, run: seq<Action>, i: nat): nat
    requires i <= |run|
  {
    match Execute(svc, INITIAL, run[..i])
    case None => 0
    case Some(s) => |s.log.entries|
  }

  lemma LenAtPrefix(svc: Service, run: seq<Action>, longer: seq<Action>, i: nat)
    requires i <= |run| && run <= longer
    ensures LenAt(svc, longer, i) == LenAt(svc, run, i)
  {
    assert longer[..i] == run[..i];
  }

  predicate Grows(a: Action) {
    a.Sequence? && a.fault.None?
  }

  lemma ActGrowth(svc: Service, s: State, a: Action)
    requires !a.Restarting? && Act(svc, s, a).Some?
    ensures |Act(svc, s, a).value.log.entries| == |s.log.entries| + (if Grows(a) then 1 else 0)
  {
    hide ReceiptAt;
    if !a.Sequence? {
      OtherLog(svc, s, a);
    }
  }
}
